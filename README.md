# qs_techtest users service in Dafny

This project models the users component of qs_techtest, a small Flask service backed by a SQL table of users. The service offers two handlers:

- **`POST /v1/users/`** adds a user. It accepts a first name, a last name, an email address and an optional country. A user is rejected with 400 when:
  - the email does not match the service's email pattern, or
  - the country is not one of the `Country` enum's values.
- **`GET /v1/users/?sort=<field>`** lists every user as a JSON object, in descending order on the named column. It answers 400 when the field is not a column.

The model has six modules, one per file:

- `Basics` (`basics.dfy`): the `Option` and `Result` datatypes.
- `EmailPattern` (`email.dfy`): the email regular expression, applied with `re.match` semantics (the match is anchored at the start only). It is written three ways:
  - `RegexMatch`: some prefix of the address fully matches the expression;
  - `HasEmailPrefix`: a simpler shape without the 64-letter bound;
  - `CheckEmail`: an executable checker.

  All three are proved to agree. `ValidateEmail` is the model validator. It accepts an address exactly when `RegexMatch` holds, and otherwise fails with the validator's message.
- `PythonRepr` (`python_repr.dfy`): Python's `repr` of a string, as the handlers' `!r` conversions use it. It covers:
  - the choice of quote;
  - escapes for the backslash, the chosen quote, `\t`, `\n` and `\r`;
  - `\xhh` for the other ASCII control characters and DEL.

  `Unescape` reads a representation back, and `Repr` is proved injective.
- `Models` (`models.dfy`):
  - the `Country` enum and its decoder;
  - the `User` row;
  - the five columns;
  - `serialise`, with `Deserialise` as its inverse;
  - `__repr__`, with a parser as its inverse.
- `Ordering` (`ordering.dfy`):
  - code-point lexicographic order on text, which is SQLite's default BINARY collation;
  - a descending insertion sort as the meaning of `ORDER BY … DESC`;
  - a proof that any two descending orderings of the same rows agree key by key.
- `Views` (`views.dfy`): the two handlers.
  - `UserTable` is a class whose `rows` field the add handler appends to. `AddUser` keeps two invariants: ids are unique, and every stored email is accepted by the validator.
  - `GetUsers` is a function of the committed rows and the `sort` parameter.

A few behaviours of the code are worth stating up front, because a reader might expect otherwise:

- **Serialising a row with no country.** `serialise` reads `self.country.value`. For a row stored without a country, this raises `AttributeError` instead of producing `null`. So a listing that includes such a row ends in the generic 500 handler, and `GetUsers` answers `InternalServerError` in that case.
- **The order of checks.** The email validator runs when the `User` object is built, before anything is written. The country is converted only when the row is flushed. So an address that fails the pattern is reported first, even when the country is also wrong.
- **Id collisions.** A commit that fails for any reason under `StatementError` is answered with the country message. That includes an id collision, because `IntegrityError` is a subclass of `StatementError`. `AddUser` does the same.
- **Empty names.** Names may be empty: neither `add_user_schema` nor the `User` class requires a non-empty name (the columns are only `nullable=False`), and the model accepts them too.

## Model

| member | source | states |
|---|---|---|
| EmailPattern.RegexMatch | qs_techtest/users/models.py:13 | the expression itself under `re.match`: some prefix of the value splits into local characters, `@`, domain characters, `.` and 2 to 64 letters; it has no contract of its own, and `UpperTldBoundIrrelevant`, `CheckEmail` and `AcceptedIffSplitAtFirstAt` state what it accepts |
| EmailPattern.UpperTldBoundIrrelevant | qs_techtest/users/models.py:13 | under `re.match`, the `{2,64}` bound on the last label never rejects anything: an address matches iff a prefix has the shape local `@` domain `.` two letters |
| EmailPattern.CheckEmail | qs_techtest/users/models.py:13 | the executable scan (local run, `@`, domain run holding a dot followed by two letters) returns true exactly when the regular expression matches a prefix, both directions |
| EmailPattern.ValidateEmail | qs_techtest/users/models.py:32-39 | accepts exactly the addresses the expression matches at the start, returning the value unchanged; otherwise fails with "Email does not match the required pattern." |
| EmailPattern.AcceptedIffSplitAtFirstAt | qs_techtest/users/models.py:13 | an address is accepted iff its first `@` has a non-empty run of local characters before it and, after it, a run of domain characters that holds a dot followed by two letters |
| EmailPattern.AcceptanceIsPrefixClosed | qs_techtest/users/models.py:34 | because the match is anchored only at the start, anything appended to an accepted address is accepted too |
| EmailPattern.NoAtSignRejected | qs_techtest/users/models.py:13 | an address without `@` is always rejected |
| EmailPattern.LongTldAccepted | qs_techtest/users/models.py:13 | `a@b.` followed by any two or more letters is accepted, even when there are more than 64 |
| EmailPattern.ExampleAccepted | tests/test_users.py:40-57 | the address of the successful add test is accepted |
| EmailPattern.ExampleRejected | tests/test_users.py:59-77 | the address of the invalid-email test is rejected with the validator's message |
| EmailPattern.ExampleAcceptedBond | tests/test_users.py:24-29 | the first fixture user's address is accepted |
| EmailPattern.ExampleAcceptedZodiac | tests/test_users.py:30-35 | the second fixture user's address is accepted |
| PythonRepr.QuoteFor | qs_techtest/users/views.py:37 | the quote `repr` chooses is `'` or `"`, and it never occurs in the text unless the text holds both kinds, so a quote is escaped only then |
| PythonRepr.HexValue | qs_techtest/users/views.py:37 | the reading-back partner of the `\xhh` escapes that `!r` writes: a hex digit reads back to the value whose digit it is |
| PythonRepr.Repr | qs_techtest/users/views.py:37 | the representation is at least two characters long and starts and ends with the chosen quote |
| PythonRepr.UnescapeEscape | qs_techtest/users/views.py:37 | the escaped body of a representation reads back to the original text |
| PythonRepr.ReprInjective | qs_techtest/users/views.py:53 | different texts have different representations, so the error messages identify the offending value |
| PythonRepr.PlainRepr | qs_techtest/users/views.py:53 | text without quotes, backslashes or control characters is shown inside single quotes |
| Models.DecodeCountry | qs_techtest/users/models.py:20-22 | exactly "Ireland" and "United States" decode, each to the member whose value it is |
| Models.CountryRoundTrip | qs_techtest/users/models.py:20-22 | every member's value decodes back to that member |
| Models.ColumnByName | qs_techtest/users/models.py:26-30 | exactly the five column names resolve, each to the column of that name |
| Models.ColumnRoundTrip | qs_techtest/users/models.py:26-30 | every column's name resolves back to that column |
| Models.Serialise | qs_techtest/users/models.py:41-50 | serialising succeeds iff the row has a country; the object then has exactly the five column keys, each holding that column's text |
| Models.SerialiseRoundTrip | qs_techtest/users/models.py:41-50 | the serialised form of a row with a country reads back to the same row |
| Models.IndexOf | qs_techtest/users/models.py:52-54 | the search the reading-back partner of `__repr__` uses: the first position of a character, or none when it does not occur |
| Models.Repr | qs_techtest/users/models.py:52-54 | `<User 'first last'>`; it has no contract of its own, and `ReprRoundTrip` and `ReprAmbiguousWithSpace` state when the names can be read back |
| Models.ReprRoundTrip | qs_techtest/users/models.py:52-54 | when the first name has no space, both names can be read back from `<User 'first last'>` |
| Models.ReprAmbiguousWithSpace | qs_techtest/users/models.py:52-54 | with a space in the first name, two different users have the same representation |
| Ordering.LexLeReflexive | qs_techtest/users/views.py:55 | the text order is reflexive |
| Ordering.LexLeTotal | qs_techtest/users/views.py:55 | any two texts are comparable |
| Ordering.LexLeTransitive | qs_techtest/users/views.py:55 | the text order is transitive |
| Ordering.LexLeAntisymmetric | qs_techtest/users/views.py:55 | texts that are each at most the other are equal |
| Ordering.InsertDesc | qs_techtest/users/views.py:55 | placing a row into a descending sequence gives a descending sequence holding exactly the old rows plus the new one |
| Ordering.OrderDesc | qs_techtest/users/views.py:55 | the ordered rows are a permutation of the table, non-increasing in the sort column |
| Ordering.DescOrderingKeysUnique | qs_techtest/users/views.py:55 | any two descending orderings of the same rows have the same length and the same key at every position, so only ties may differ |
| Views.CoerceCountry | qs_techtest/users/models.py:30 | a country is stored iff it is absent (NULL) or one of the two values; a stored value decodes to the member with that value |
| Views.UserTable.constructor | tests/test_users.py:20-23 | a new table is empty and satisfies the table invariant |
| Views.UserTable.AddUser | qs_techtest/users/views.py:16-43 | see the notes after this table |
| Views.SerialiseAll | qs_techtest/users/views.py:57 | the list succeeds iff every row has a country; it then holds, position by position, the serialisation of each row |
| Views.ReadBackAll | qs_techtest/users/views.py:57 | a list holding the serialisations of some rows, position by position, reads back to exactly those rows in the same order |
| Views.PermutationKeepsCountries | qs_techtest/users/views.py:55-57 | reordering the rows keeps their number, and keeps whether every row has a country, so the sort does not change whether serialising succeeds |
| Views.ListDesc | qs_techtest/users/views.py:55-57 | the serialised listing succeeds iff every row has a country; it then holds one object per row with exactly the five keys, each the serialisation of the listed row at its position, and the listed rows are a descending permutation of the table |
| Views.DeserialiseAll | qs_techtest/users/views.py:57 | the reading-back partner of the list built there: a list that reads back gives one row per object, each the object's reading |
| Views.GetUsers | qs_techtest/users/views.py:46-58 | see the notes after this table |
| Views.SortName | qs_techtest/users/views.py:48-50 | the sort field; it has no contract of its own, and `DefaultSortIsFirstName` states its effect |
| Views.DefaultSortIsFirstName | qs_techtest/users/views.py:48-50 | an absent or empty sort parameter lists as `first_name` does |
| Views.ListingShowsEveryRow | qs_techtest/users/views.py:55-58 | every row of the table appears in a successful listing |
| Views.ListingSucceeds | qs_techtest/users/views.py:52-58 | listing by a column when every row has a country succeeds |
| Views.TwoRowOrdering | qs_techtest/users/views.py:55 | a descending ordering of two rows with different keys is the greater row followed by the lesser |
| Views.TwoRowListing | qs_techtest/users/views.py:46-58 | listing two rows with different keys returns two objects: the greater row's first, then the lesser row's |
| Views.ExampleListingByFirstName | tests/test_users.py:187-204 | with the default sort, James Bond is listed before Aaron Zodiac |
| Views.ExampleListingByLastName | tests/test_users.py:206-223 | sorted by `last_name`, Aaron Zodiac is listed before James Bond |
| Views.AddTwoUsers | tests/test_users.py:20-38 | adding two users with distinct ids, accepted addresses and countries to an empty table through the add handler leaves exactly those two rows, in order |
| Views.AddTwoThenList | tests/test_users.py:187-223 | after the two fixture users are added, the default listing and the `last_name` listing both succeed with the orders the handler tests expect |
| Views.CountryRepr | qs_techtest/users/views.py:37 | `repr` of the submitted country, `None` when absent; it has no contract of its own, and `CountryMessageInjective` states what it achieves |
| Views.InvalidCountryMessage | qs_techtest/users/views.py:37-38 | the country message; it has no contract of its own, and `PlainCountryMessage` and `CountryMessageInjective` state its text and that it names the value |
| Views.NoFieldMessage | qs_techtest/users/views.py:53 | the no-field message; it has no contract of its own, and `PlainNoFieldMessage` and `NoFieldMessageInjective` state its text and that it names the field |
| Views.PlainCountryMessage | qs_techtest/users/views.py:37-38 | for a plain country value such as `England`, the error message quotes the value in single quotes before the fixed text |
| Views.PlainNoFieldMessage | qs_techtest/users/views.py:53 | for a plain field name, the error reads `User object has no field '<name>'.` |
| Views.CountryMessageInjective | qs_techtest/users/views.py:37-38 | two different submitted countries, an absent one included, never give the same country message |
| Views.NoFieldMessageInjective | qs_techtest/users/views.py:53 | two different sort names never give the same no-field message |

`Views.UserTable.AddUser` promises the following:

- An address the pattern rejects gets 400 with the validator's message, and the table is unchanged.
- Otherwise, an unknown country or an id already present gets 400 with the country message, rendered through `repr`, and the table is unchanged.
- Otherwise the request succeeds. The submitted attributes are echoed, and exactly one row is appended with the given id and the decoded country.
- Unique ids and accepted addresses are kept as an invariant.

`Views.GetUsers` promises the following:

- It answers 400 with the no-field message iff the sort name is not a column.
- It answers 500 iff the sort name is a column and some row has no country.
- Otherwise it answers 200 with one object per row: each object has exactly the five column keys and is the serialisation of the row at its position, and the rows so listed are a permutation of the table, descending on the sort column.

## Left out

- Flask, the blueprint registration, the app factory, `config.py`, the JSON body decoding and the 400/500 error-handler wrappers are not modelled. A handler's outcome is the `Response` value: success, a 400 with its message, or a 500.
- The JSON schema is not modelled. The model assumes the body holds `data.attributes` with the three required strings and an optional string country; that is what `Attributes` stands for. Properties outside the schema are neither stored nor echoed in the model.
- Views.UserTable.AddUser: a body without `data.attributes` passes the schema (`data` has no `required` list), and reading `request_data["data"]["attributes"]` then raises `KeyError`, which the generic handler answers with 500. That path is not modelled.
- The session's add, flush, commit and rollback are modelled as one atomic append to `rows`. The rollback done by the 500 handler needs nothing further, since a failed add leaves the rows unchanged.
- Views.UserTable.AddUser: the identifier comes from `uuid.uuid4()` in the source. In the model it is the `newId` parameter, because randomness is not modelled.
- Column lengths (`String(36)`, `String(80)`, `String(120)`) are not enforced. SQLite does not enforce them either.
- GetUsers: every sort name that is not one of the five columns is answered with 400. In the source, `hasattr(User, name)` also holds for other attributes of the model class, such as `query`, `metadata` or `serialise`. What `order_by` then does with those attributes depends on SQLAlchemy and is not modelled.
- GetUsers: the order among rows with equal keys is left unspecified, as it is in SQL. The sort is code-point order on text, and a NULL country sorts as the empty text. NULL handling under `DESC` and any other collation are not modelled.
- PythonRepr.Repr: non-ASCII characters that Python treats as non-printable are escaped by `repr` as `\x`, `\u` or `\U`. The model passes them through unchanged, because Unicode printability tables are not modelled.

## Findings

No defect is claimed. Listing a table that holds a row without a country answers 500 (see `Views.GetUsers`). The model keeps that behaviour, because it is what the code as written does.
