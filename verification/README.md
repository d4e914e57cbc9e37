# YaMDb review API — a verified model of its domain rules

YaMDb is a Django REST service where users review titles (books, films, music), score
them from 1 to 10 and comment on reviews. Titles are grouped by category and genre.
Accounts sign up with a username and e-mail address, get a confirmation code by mail,
and exchange that code for an access token.

This project models the part of the service that carries domain rules, over an
in-memory store with one map per table from primary key to row:

- **Models** (`models.dfy`): the entities; the field validators (slug format and length,
  year range, score range); the uniqueness constraints (slugs, usernames, e-mails, one
  review per title and author); and the `on_delete` rules as store operations:
  - deleting a category sets its titles' category to null;
  - deleting a genre removes its link rows;
  - deleting a title, review or user cascades to the rows that depend on it.

  `ValidStore` collects what the database and the field validators guarantee of every state. Each operation is
  proved to preserve it.
- **Rating** (`rating.dfy`): a title's rating. It is absent without reviews and is
  otherwise the exact mean score. There is a one-pass method that computes it.
- **Auth** (`auth.dfy`): `send_message`, which draws a six-character code, stores it in
  the account's one-to-one confirmation row and mails it. `get_jwt_token`, which
  exchanges the code for a token.
- **Serializers** (`serializers.dfy`), the validation rules:
  - slug-record and title submissions;
  - the reserved username `me` and signup;
  - the self-profile patch with its read-only role;
  - the review field rules and the duplicate-review guard;
  - the title representation with its order-preserving genre expansion.
- **Views** (`views.dfy`), the request handlers:
  - category and genre create and delete;
  - title create;
  - the review and comment endpoints nested under a title;
  - `users/me`.
- **Filters** (`filters.dfy`): the title list filter. `genre`, `category` and `name` are
  case-insensitive substring tests and `year` is an exact match. The parameters combine
  by conjunction.
- **Common**, **Ids**, **Text**: the result and error types, fresh primary keys, ASCII
  case folding with substring search, and the whitespace trimming of `str.strip()`.

Every character field of the serializers (names, slugs, titles, descriptions, review and
comment text, usernames, e-mails, the confirmation code), and every text parameter of the
title filter, is trimmed of surrounding whitespace before it is validated, stored or
compared. The trimming is DRF's `trim_whitespace` default, and for the filter it is the
form field behind `CharFilter`. The whitespace characters are those of Python's
`str.isspace`. A value that trims to nothing counts as blank. The genre and category
slugs of a title submission are `SlugRelatedField`s, which do not trim, so they are looked
up exactly as sent.

A handler returns `Result`. `Err` carries the HTTP outcome:

| `ApiError` | status | meaning |
|---|---|---|
| `Invalid`, `NonFieldInvalid` | 400 | serializer validation error |
| `NotFound` | 404 | `get_object_or_404` found no row |
| `BadRequest` | 400 | explicit 400 response |
| `MethodNotAllowed` | 405 | the route does not take this HTTP method |
| `Integrity` | 500 | uncaught `IntegrityError` |
| `Missing` | 500 | uncaught `DoesNotExist` |

External collaborators become inputs:

- The random source is the sequence of alphabet indices it draws.
- The calendar year read when the models load is the parameter `currentYear`.
- The mail transport receives the returned `Mail` value.
- The token minted for an account is the opaque `AccessToken(user)`.

Two behaviours of the code are worth stating directly:

- A second `send_message` for the same account fails on the one-to-one `UserAuth` row
  (views.py:89-92, models.py:102-107). It does not overwrite the stored code.
- Signing up with a registered username or e-mail is a validation error, raised by the
  unique validators of those columns (models.py:78-79). It does not resend a code.

## Model

| member | source | states |
|---|---|---|
| `Text.Lower` | api_yamdb/api/serializers.py:78 | lower-casing keeps the length and maps each ASCII capital to its small letter, leaving every other character as it is |
| `Text.Contains` | api_yamdb/api/filters.py:7-9 | the substring test is true exactly when the needle occurs at some position of the text |
| `Text.Strip` | api_yamdb/api/serializers.py:125-127 | trimming never lengthens a value, and a non-blank trimmed value starts and ends with a non-space character |
| `Text.StripSpec` | api_yamdb/api/serializers.py:125-127 | the trimmed value is a slice of the input with only whitespace around it; it is blank exactly when the input is all whitespace; a value without surrounding whitespace is kept |
| `Text.StripIdempotent` | api_yamdb/api/filters.py:7-9 | trimming twice is trimming once |
| `Text.LowerStrip` | api_yamdb/api/filters.py:7-9 | trimming and ASCII lower-casing commute |
| `Models.RolesExclusive` | api_yamdb/reviews/models.py:93-99 | no account is both administrator and moderator |
| `Models.PlainUserHasNoFlags` | api_yamdb/reviews/models.py:69-99 | among the three role choices, "user" is exactly the role with neither the admin nor the moderator flag |
| `Models.NewUser` | api_yamdb/reviews/models.py:78-89 | a created account keeps the given username and e-mail, has blank names and bio, and gets the default role "user" (neither admin nor moderator) |
| `Models.FindBySlug` | api_yamdb/api/serializers.py:59 | on a slug-unique table the lookup returns the one row with that slug, or nothing when no row has it |
| `Models.FindByUsername` | api_yamdb/api/views.py:87 | on a username-unique table the lookup returns the one account with that username, or nothing |
| `Models.ValidStore` | api_yamdb/reviews/models.py:9-173 | the state invariant: slugs valid and unique per table, usernames and e-mails unique, every role one of the three choices, every confirmation row (at most one per account) belonging to an existing account, every foreign key resolving (a title's category may be null), scores in 1..10 and at most one review per title and author |
| `Models.InsertReview` | api_yamdb/reviews/models.py:150-155 | an insert fails with an integrity error exactly when the author already reviewed the title; otherwise the review gets an unused id and nothing else changes |
| `Models.InsertReviewPreservesValid` | api_yamdb/reviews/models.py:117-139 | inserting a review with an existing title, an existing author and a score in 1..10 keeps the store invariant |
| `Models.SecondReviewRejected` | api_yamdb/reviews/models.py:150-155 | after one review of a (title, author) pair is stored, any second insert for the pair is rejected |
| `Models.InsertComment` | api_yamdb/reviews/models.py:158-173 | a comment gets an unused id and nothing else changes |
| `Models.InsertCommentPreservesValid` | api_yamdb/reviews/models.py:159-173 | a comment on an existing review by an existing account keeps the store invariant |
| `Models.AddLinks` | api_yamdb/reviews/models.py:40-44 | setting a title's genres keeps every earlier link row and adds rows only for that title; afterwards the title is linked to a genre exactly when it was before or the genre is in the list; no new row duplicates another |
| `Models.InsertTitle` | api_yamdb/reviews/models.py:33-51 | a title gets an unused id, its link rows are those AddLinks produces, and no other table changes |
| `Models.InsertTitlePreservesValid` | api_yamdb/reviews/models.py:57-65 | a new title with resolvable category and genres keeps the store invariant, and is linked to exactly the given genres |
| `Models.CreateUserRecord` | api_yamdb/reviews/models.py:78-79 | account creation fails exactly when the username or the e-mail is taken; otherwise it adds one default account under an unused id |
| `Models.CreateUserRecordPreservesValid` | api_yamdb/reviews/models.py:68-91 | account creation keeps usernames and e-mails unique and the whole store invariant |
| `Models.DeleteCategory` | api_yamdb/reviews/models.py:45-51 | deleting a category keeps every title, nulls the category of exactly the titles that pointed at it, leaves their other fields alone and changes no other table |
| `Models.DeleteCategoryPreservesValid` | api_yamdb/reviews/models.py:45-51 | after the delete the store is valid and no title refers to the deleted category |
| `Models.DeleteGenre` | api_yamdb/reviews/models.py:57-65 | deleting a genre removes exactly the link rows pointing at it; titles and all other tables are untouched |
| `Models.DeleteGenrePreservesValid` | api_yamdb/reviews/models.py:62-65 | deleting a genre keeps the store invariant |
| `Models.DeleteReview` | api_yamdb/reviews/models.py:159-164 | deleting a review removes exactly the comments attached to it and changes nothing else |
| `Models.DeleteReviewPreservesValid` | api_yamdb/reviews/models.py:159-164 | deleting a review keeps the store invariant |
| `Models.DeleteTitle` | api_yamdb/reviews/models.py:117-123 | deleting a title removes its link rows, its reviews and exactly the comments on those reviews; every surviving row keeps its value, and nothing else changes |
| `Models.DeleteTitlePreservesValid` | api_yamdb/reviews/models.py:58-61 | deleting a title keeps the store invariant |
| `Models.DeleteUser` | api_yamdb/reviews/models.py:127-132 | deleting an account removes its confirmation row, its reviews with their comments, and its own comments; every surviving review and comment keeps its value, and nothing else changes |
| `Models.DeleteUserPreservesValid` | api_yamdb/reviews/models.py:168-173 | deleting an account keeps the store invariant |
| `Models.ReplaceReviewPreservesValid` | api_yamdb/reviews/models.py:133-139 | rewriting a review's text and score (score in 1..10, same title and author) keeps the store invariant |
| `Models.ReplaceUserPreservesValid` | api_yamdb/reviews/models.py:78-79 | rewriting an account keeps the store invariant when its new username and e-mail belong to no other account |
| `Models.InsertAuthPreservesValid` | api_yamdb/reviews/models.py:102-107 | a confirmation row for an existing account keeps the store invariant |
| `Rating.ReviewsOf` | api_yamdb/api/views.py:141-143 | the review set of a title contains exactly the reviews naming that title |
| `Rating.ScoreSumRemove` | api_yamdb/api/serializers.py:52 | the score sum does not depend on the order reviews are taken in: it is any one review's score plus the sum of the rest |
| `Rating.ScoreSumBounds` | api_yamdb/reviews/models.py:133-139 | with every score in 1..10, n scores sum to between n and 10n |
| `Rating.Rating` | api_yamdb/api/serializers.py:50-53 | the reference rating: none without reviews, otherwise the sum of the title's review scores over their count |
| `Rating.RatingSpec` | api_yamdb/api/serializers.py:50-53 | the rating is absent exactly when no review names the title; in a valid store a present rating lies in 1..10 |
| `Rating.ReviewsOfAfterInsert` | api_yamdb/api/serializers.py:51 | an inserted review joins exactly its own title's review set |
| `Rating.RatingAfterInsert` | api_yamdb/api/serializers.py:52 | an inserted review adds one to its title's review count and its score to the title's sum |
| `Rating.RatingOfOtherTitleUnchanged` | api_yamdb/api/serializers.py:51-52 | inserting a review of one title leaves every other title's rating unchanged |
| `Rating.ScoreSumFrame` | api_yamdb/api/serializers.py:52 | the sum over a set of reviews reads only those reviews |
| `Rating.GetRating` | api_yamdb/api/serializers.py:50-53 | the one-pass computation returns the rating (sum of scores over count), and nothing exactly when the title has no review |
| `Auth.CodeCharsetMembership` | api_yamdb/api/views.py:84 | the code alphabet is exactly the small ASCII letters and the digits |
| `Auth.RandomString` | api_yamdb/api/views.py:86 | the drawn string has one character per draw, each from the alphabet |
| `Auth.ConfirmationCode` | api_yamdb/api/views.py:84-86 | a generated code has length 6, fits the 6-character column, and uses only a-z and 0-9 |
| `Auth.EveryCodeReachable` | api_yamdb/api/views.py:84-86 | every 6-character string over a-z0-9 is produced by some draw sequence |
| `Auth.SendMessage` | api_yamdb/api/views.py:82-100 | an unknown username fails (DoesNotExist); an account that already has a confirmation row fails (IntegrityError); otherwise exactly one row holding the code is added for that account and a mail with the fixed subject, addressed to the given e-mail, whose message names the account and ends in that same code, is returned |
| `Auth.SendMessagePreservesValid` | api_yamdb/api/views.py:87-92 | storing the code keeps the store invariant |
| `Auth.GetJwtToken` | api_yamdb/api/views.py:60-79 | a field that trims to blank is a validation error naming it; then an unknown trimmed username is 404, an account without a confirmation row is a 500, a trimmed code equal to the stored one yields a token for that account and any other code is 400 |
| `Auth.ExchangeAfterSend` | api_yamdb/api/views.py:69-79 | after a code was stored for an account, the exchange under that username (up to surrounding whitespace) succeeds exactly when the trimmed presented code equals it, for that account, and otherwise answers 400 |
| `Auth.SecondSendFails` | api_yamdb/api/views.py:89-92 | a second code for the same account is refused, so the first code stays the valid one |
| `Serializers.SlugRecordErrors` | api_yamdb/api/serializers.py:10-23 | after trimming, the name fails exactly when blank or over 256 characters, and the slug fails exactly when it is not 1..50 characters of `[-a-zA-Z0-9_]` or is already used |
| `Serializers.ValidateUsername` | api_yamdb/api/serializers.py:77-82 | a value is rejected exactly when its lower-case form is "me"; any other value passes unchanged |
| `Serializers.ReservedUsernames` | api_yamdb/api/serializers.py:78 | the rejected values are exactly "me", "Me", "mE" and "ME" |
| `Serializers.ReservedExamples` | api_yamdb/api/serializers.py:77-82 | "meme" and "Me1" pass, "ME" is rejected |
| `Serializers.SignUpErrors` | api_yamdb/api/serializers.py:84-86 | after trimming, the username fails exactly when blank, over 150 characters, taken, or reserved; the e-mail fails exactly when blank, over 254 characters or taken |
| `Serializers.SignUpAsWritten` | api_yamdb/api/serializers.py:88-93 | signup as written: field errors are a 400; a success would need the username to exist already |
| `Serializers.SignUpAsWrittenNeverSucceeds` | api_yamdb/api/serializers.py:88-93 | signup as written never succeeds; every valid request ends in DoesNotExist (500) |
| `Serializers.SignUp` | api_yamdb/api/serializers.py:88-93 | corrected signup fails exactly on field errors; on success it adds one default account with the trimmed username and e-mail under an unused id, with one confirmation row holding the code, keeps usernames and e-mails unique, and mails the trimmed e-mail the fixed subject and the message naming the account and ending in that same code |
| `Serializers.SignUpPreservesValid` | api_yamdb/api/serializers.py:88-93 | corrected signup keeps the store invariant |
| `Serializers.SignUpThenToken` | api_yamdb/api/views.py:60-79 | after a corrected signup the new account, named as at signup, exchanges exactly the mailed code (up to surrounding whitespace) for a token naming it; any other code is 400 |
| `Serializers.ProfileErrors` | api_yamdb/api/serializers.py:96-108 | each sent field, trimmed, fails exactly on its own rule: username or e-mail blank, too long or used by another account; first or last name over 150 characters |
| `Serializers.ApplyProfilePatch` | api_yamdb/api/serializers.py:96-108 | each of username, e-mail, first name, last name and bio is replaced by its trimmed sent value when sent and kept when not; the role never changes; a patch that sends only the role changes nothing |
| `Serializers.ReviewFieldErrors` | api_yamdb/reviews/models.py:124-139 | text fails exactly when it trims to blank or (on a full write) is absent; score fails exactly when outside 1..10 or (on a full write) absent |
| `Serializers.ReviewValidate` | api_yamdb/api/serializers.py:153-162 | a missing title is 404 before any duplicate check; on POST the guard fails exactly when the requester already reviewed the title; other methods skip it; passing data is returned unchanged |
| `Serializers.TitleErrors` | api_yamdb/api/serializers.py:26-48 | name required and, trimmed, non-blank and at most 256; year required with 0 <= year <= current year; trimmed description at most 256; every genre slug and the category slug, untrimmed, must name an existing row |
| `Serializers.ResolveSlugs` | api_yamdb/api/serializers.py:27-35 | the slugs resolve exactly when each names a row, giving for each position the key of the row with that slug |
| `Serializers.ResolvedRows` | api_yamdb/api/serializers.py:27-31 | the resolved keys are exactly the rows whose slug was submitted |
| `Serializers.ExpandGenres` | api_yamdb/api/serializers.py:57-64 | expansion succeeds exactly when every slug names a genre; the result has the slugs' length and order, position by position a stored genre with that slug |
| `Serializers.ExpandStoredGenres` | api_yamdb/api/serializers.py:55-72 | expanding the slugs of a title's linked genres gives back those genres in link order |
| `Serializers.TitleRepresentationAsWritten` | api_yamdb/api/serializers.py:65-71 | the representation as written fails with DoesNotExist (500) exactly for titles whose category is null |
| `Serializers.TitleRepresentation` | api_yamdb/api/serializers.py:55-72 | the corrected representation always succeeds: id, name, year and description of the title, its linked genres in order, its category record or null, and the rating |
| `Serializers.CategoryDeleteBreaksRepresentation` | api_yamdb/reviews/models.py:45-51 | after its category is deleted a title can no longer be shown by the representation as written, while the corrected one shows it with a null category |
| `Views.CreateSlugRecord` | api_yamdb/api/views.py:23-38 | a category or genre submission is stored, with name and slug trimmed, under an unused id exactly when it has no field error; the stored slug is then valid and was unused |
| `Views.CreateSlugRecordPreservesSlugs` | api_yamdb/reviews/models.py:11-15 | creating a record keeps the table's slugs valid and unique |
| `Views.PaddedSlugStoredStripped` | api_yamdb/api/serializers.py:10-15 | a category submitted as name "Film" and slug " film" is accepted and stored with slug "film" |
| `Views.CreateCategory` | api_yamdb/api/views.py:32-38 | a category is added exactly when the submission is valid, and nothing else changes |
| `Views.CreateGenre` | api_yamdb/api/views.py:23-29 | a genre is added exactly when the submission is valid, and nothing else changes |
| `Views.CreateCategoryPreservesValid` | api_yamdb/reviews/models.py:9-15 | creating a category keeps the store invariant |
| `Views.CreateGenrePreservesValid` | api_yamdb/reviews/models.py:21-27 | creating a genre keeps the store invariant |
| `Views.DestroyCategory` | api_yamdb/api/views.py:32-38 | delete by slug: 404 when no category has the slug, otherwise the category delete of the one that has it |
| `Views.DestroyGenre` | api_yamdb/api/views.py:23-29 | delete by slug: 404 when no genre has the slug, otherwise the genre delete of the one that has it |
| `Views.CreateTitle` | api_yamdb/api/views.py:41-45 | a title is created exactly when the submission has no field error; it carries the trimmed name, the year (within range), the trimmed description (blank when absent) and the category with the sent slug, and only the title and link tables change |
| `Views.CreateTitlePreservesValid` | api_yamdb/reviews/models.py:40-51 | title creation keeps the store invariant, and the new title is linked to exactly the genres whose slugs were sent |
| `Views.ListReviews` | api_yamdb/api/views.py:141-143 | 404 for an unknown title, otherwise exactly the reviews of that title |
| `Views.CreateReview` | api_yamdb/api/views.py:145-148 | field errors come first; then an unknown title is 404; then the create succeeds exactly when the requester has no review of the title; the stored review has the trimmed text, the sent score, the requester as author and the URL title as title, and nothing else changes |
| `Views.CreateReviewPreservesValid` | api_yamdb/api/views.py:145-148 | creating a review as an existing account keeps the store invariant |
| `Views.SecondCreateReviewRefused` | api_yamdb/api/serializers.py:158-161 | after a requester's review of a title is created, their next well-formed POST for it fails validation |
| `Views.CreateReviewThenList` | api_yamdb/api/views.py:141-148 | after a created review, the title's review listing is the old listing plus the new id, and the new review is the only one in it by the requester |
| `Views.UpdateReview` | api_yamdb/api/views.py:137-143 | PUT/PATCH: 404 unless the review belongs to the URL title; then success exactly on valid fields (partial on PATCH); a sent text is stored trimmed and a sent score as sent, an unsent one keeps its stored value; title, author and all other reviews and tables stay |
| `Views.UpdateReviewPreservesValid` | api_yamdb/reviews/models.py:133-139 | updating a review keeps the store invariant |
| `Views.ListComments` | api_yamdb/api/views.py:155-159 | 404 unless the review belongs to the URL title, otherwise exactly the comments of that review |
| `Views.CreateComment` | api_yamdb/api/views.py:161-165 | absent text, or text that trims to blank, is a field error; then 404 unless the review belongs to the URL title; otherwise one comment with the trimmed text and the requester as author is added and nothing else changes |
| `Views.CreateCommentPreservesValid` | api_yamdb/api/views.py:161-165 | creating a comment as an existing account keeps the store invariant |
| `Views.CreateCommentThenList` | api_yamdb/api/views.py:155-165 | after a created comment, the review's comment listing is the old listing plus the new id |
| `Views.UserProfile` | api_yamdb/api/views.py:117-134 | GET returns the requester's own record unchanged; PATCH succeeds exactly when the patch has no field error, saves and returns the record the patch produces, changes only the requester's record and never its role; HEAD, which the framework routes to the action, falls through to the explicit 400; other methods are refused |
| `Views.UserProfilePreservesValid` | api_yamdb/api/views.py:122-130 | a profile patch keeps usernames and e-mails unique and the whole store invariant |
| `Views.PatchedAccountDistinct` | api_yamdb/reviews/models.py:78-79 | a profile patch that passes validation gives the account a username and an e-mail that no other account has |
| `Filters.FilterTitles` | api_yamdb/api/filters.py:6-13 | a title is listed exactly when it exists and every parameter that does not trim to blank, trimmed, matches it; the result is a subset of the titles |
| `Filters.Matches` | api_yamdb/api/filters.py:6-13 | a title matches when every parameter that does not trim to blank matches it: genre and category as case-insensitive substrings of a linked genre's slug and of the category's slug, name of the title's name, year exactly |
| `Filters.Clean` | api_yamdb/api/filters.py:7-9 | a text parameter that does not trim to blank becomes its trimmed value; any other becomes absent |
| `Filters.CleanKeepsQuery` | api_yamdb/api/filters.py:7-9 | a cleaned parameter takes part in the query exactly when the original does, and asks for the same trimmed value |
| `Filters.Normalize` | api_yamdb/api/filters.py:7-9 | every text parameter is trimmed and dropped when that leaves nothing; the year is kept |
| `Filters.BlankIsAbsent` | api_yamdb/api/filters.py:7-9 | trimming the parameters and dropping the blank ones does not change the listing, including for titles whose category is null |
| `Filters.NoFilterKeepsAll` | api_yamdb/api/filters.py:6-13 | without parameters every title is listed |
| `Filters.FiltersIntersect` | api_yamdb/api/filters.py:6-13 | filtering by all parameters lists the intersection of filtering by each one alone |
| `Filters.RefiningNarrows` | api_yamdb/api/filters.py:6-13 | adding parameters never enlarges the listing |
| `Filters.ParameterCaseIgnored` | api_yamdb/api/filters.py:7-9 | lower-casing the text parameters does not change the listing |
| `Filters.LowerKeepsQuery` | api_yamdb/api/filters.py:7-9 | a lower-cased parameter takes part in the query exactly when the original does, and its trimmed value differs only in case |
| `Filters.NameFragmentFindsTitle` | api_yamdb/api/filters.py:9 | a non-blank `name` parameter lists exactly the titles whose lower-cased name contains the lower-cased trimmed parameter |
| `Filters.PaddedFragmentFindsDune` | api_yamdb/api/filters.py:9 | a title named "Dune" is found by the `name` parameter " uN " |

## Left out

- `api/permissions.py` is not part of this model. Every handler takes an
  authenticated requester and assumes the permission classes let the request through.
- URL routing, admin registration and the mixin composition are left out. They are
  framework configuration with no rules of their own.
- The list and retrieve endpoints of categories, genres, titles and users, and the
  `users/` admin viewset, are left out. That includes the `?search=` name search of the
  category and genre lists (`SearchFilter` on `name`, views.py:27-28 and 36-37).
- Title update is left out. It reuses the title field rules of `Serializers.TitleErrors`.
- Review delete is modelled by the store operation `Models.DeleteReview`, without the
  handler around it. Comment delete, which removes one row, is not modelled.
- Mail delivery, transport failures and JWT minting are left out. The mail is a returned
  value and the token is the opaque `AccessToken(user)`.
- The randomness of `get_random_string` is the draw sequence the caller supplies.
- `pub_date` timestamps, the `pub_date` ordering and pagination are left out. A listing
  is a set of ids.
- Django's `Avg` works in floating point. The model uses the exact rational mean.
- `Views.UserProfile`: OPTIONS, which the framework answers itself without calling the
  handler, is not modelled. POST, PUT and DELETE are modelled as 405.
- `Serializers.SignUpErrors`, `Serializers.ProfileErrors`: no e-mail format check.
- `Serializers.SlugRecordErrors`, `Serializers.SignUpErrors`, `Serializers.ProfileErrors`,
  `Serializers.ReviewFieldErrors`, `Serializers.TitleErrors`, `Views.CreateComment`,
  `Auth.GetJwtToken`, `Filters.FilterTitles`: DRF's character fields, and the form field
  behind `CharFilter`, also reject a value containing the NUL character; for the filter
  that makes the listing a 400. That check is not modelled, and the model lists titles
  for such a parameter.
- `Ids.FreshId`: the least unused key is chosen, so the key of a deleted row can be
  reused. The database's auto-increment never reuses a key, so in the service an id
  never names a second row after a delete. The model does not promise that.
- `Serializers.SignUp`: `create_user`'s normalisation of the username (Unicode NFKC) and
  of the e-mail domain is left out; both are stored as trimmed. No unusable password is
  stored.
- `Text.Lower`, `Filters.FilterTitles`: `Text.Lower` folds only ASCII capitals, whereas
  Python's `str.lower()` folds all of Unicode. For `validate_username` the verdict is the
  same, because only `M`, `E`, `m` and `e` lower-case to `m` or `e`. The folding of the
  `icontains` lookup depends on the database backend; only SQLite's ASCII-only `LIKE`
  folding is modelled.
- `Filters.FilterTitles`: the genre join can return a title once per matching link row.
  The model returns a set.
- A `TitleGenre` row can appear twice in the database, since the table has no unique
  constraint. `Models.AddLinks` never creates such a duplicate, and no invariant
  excludes one.

## Findings

| source | as written | input that shows it | evidently intended | confidence | as-written member | corrected member |
|---|---|---|---|---|---|---|
| api_yamdb/api/serializers.py:88-93 | `create` calls `send_message` before `create_user`. `send_message` first looks the account up by username (views.py:87). Signup's unique validator has just ensured that no account has that username, so the lookup raises `DoesNotExist`. | any valid signup, e.g. username "alice" and e-mail "a@x.io" on an empty store: the result is a 500, no account is created and no mail is sent | create the account, then store and mail its code; the new account can then exchange the mailed code for a token | high; not executed | `Serializers.SignUpAsWrittenNeverSucceeds` | `Serializers.SignUp`, `Serializers.SignUpThenToken` |
| api_yamdb/api/serializers.py:65 | the category is fetched with `Category.objects.get(slug=data['category'])`. For a title whose category was nulled by a category delete (models.py:48), the slug is null, so `get` raises `DoesNotExist`. | create category "film", create a title in it, delete the category, then GET the title or the title list: the result is a 500 | render a null category as null | high; not executed | `Serializers.CategoryDeleteBreaksRepresentation` | `Serializers.TitleRepresentation` |
