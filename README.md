# Marketplace API handlers: authentication, items and posts

A Dafny model of the request handlers of a Go marketplace backend (Fiber on
top of GORM): the authentication handlers of `handler/auth.go` (user lookups,
password check, `Login`, `Register`), the item handlers of `handler/item.go`
(filtered reads, create, and the guarded update and delete) and the post
handlers of `handler/post.go` (read by author, create).

Each handler is modelled as a step from (database, request inputs) to
(response, new database):

- The database `database.DB` is the class `Store.Database`, whose three
  tables (`users`, `items`, `posts`) are sequences of rows in primary-key order.
  New rows get the next serial key. The user table enforces the unique
  constraints on username and email declared at `model/user.go:6-7`. Its
  invariant `Valid()` says that keys are positive, below the next serial value
  and strictly increasing, and that no two users share an email or a username.
- The two GORM queries are functions over those sequences
  (`Query.Where`, `Query.First`). Whether a database call fails is decided
  outside the model and passed in as a `Query.Outcome` (`Ok` or `Err`), one per
  call a handler makes.
- The handlers that only read (`GetAllItems`, `GetItemFromCategory`,
  `GetItemFromUser`, `GetItemFromId`, `GetPostFromUser`) are functions of the
  table. `Login` is a method that reads the user table and returns the
  response, the cookie, and the list of (password, hash) pairs it handed to
  `CheckPasswordHash`. The handlers that change a table (`Register`,
  `CreateItem`, `UpdateItem`, `DeleteItem`, `CreatePost`) are methods that
  modify exactly the fields of that table.
- A response (`Responses.Response`) is the HTTP status, the text of its
  `message` or `error` field (empty when the body is a bare row), and the
  data it carries. The login and registration payloads have no password field.
- The library calls come in as the functions of an `Auth.Primitives` value.
  These are bcrypt's hash and compare, `net/mail.ParseAddress` (which `valid`
  wraps), and HS256 signing with the configured secret. Hashing and signing
  may fail. Two properties are assumed of them, each only where a contract
  says so: bcrypt's round trip (`Auth.HashRoundTrips`), and, in
  `Scenarios.RegisterThenLogin` only, that signing never fails
  (`forall c :: prim.signToken(c).Some?`). The clock is the
  parameter `now`, in Unix seconds.
- The authenticated caller (what `middleware.GetUserID` yields) is an
  `Option<nat>`. Passwords, usernames and emails are byte strings (`Records.Bytes`),
  because Go's `len` counts bytes. Path ids are parsed by a model of
  `strconv.Atoi` (`Strconv.Atoi`).

Where the code and the design description of the system disagree, the model
follows the code:

- `Login` issues one 72-hour token in a `jwt` cookie and in the body. It does
  not issue a 15-minute access token with a separate 7-day refresh token.
- `Register` stops at the first conflict. It does not evaluate both conflict
  checks.
- If the insert fails after the pre-checks pass, `Register` answers 500
  "Error creating user", not a conflict.
- `GetItemFromId` answers 404 for every failed query, storage errors included.

## Model

| member | source | states |
|---|---|---|
| `Strconv.Atoi` | handler/item.go:48-51 | Accepts exactly an optional `+` or `-` followed by one or more decimal digits. Any other path text, the empty text included, is refused, and the handlers answer 400. The value is that of the digits, negated after `-`. |
| `Strconv.Digits` | handler/item_test.go:114 | The decimal spelling of a natural number is non-empty, is all digits, has no leading zero and reads back as the number. |
| `Strconv.Itoa` | handler/item_test.go:138 | Round trip: `Atoi(Itoa(n)) == Some(n)` for every integer, so a path built from an id parses back to that id. |
| `Query.Where` | handler/item.go:55 | `Where(...).Find` returns exactly the rows satisfying the condition, and no more rows than the table has. |
| `Query.WhereAppend` | handler/item.go:128 | Filtering a concatenation is the concatenation of the filtered parts. With `Query.WhereSingle` this fixes the result to table order. |
| `Query.WhereSingle` | handler/post.go:25 | A single row filters to itself when it satisfies the condition and to nothing otherwise. |
| `Query.IndexWhere` | handler/auth.go:29 | Gives the position of the first matching row with no match before it, or says that no row matches. |
| `Query.First` | handler/auth.go:29-35 | `First` gives a storage error exactly when the call fails, no row exactly when the call succeeds and nothing matches, and otherwise the first row of the table, in primary-key order, that matches. |
| `Query.FirstOfUnique` | handler/item.go:162 | When at most one row can satisfy the condition, `First` returns exactly that row. |
| `Store.KeysAppend` | handler/item.go:105 | Appending a row keyed with the next serial value keeps keys increasing and below the new next value. |
| `Store.KeysRemove` | handler/item.go:236 | Removing any row keeps the key invariant. |
| `Store.KeyedRowIsUnique` | model/item.go:4 | With strictly increasing primary keys, the first row with a row's own key is that row. |
| `Store.RemovedRows` | handler/item.go:236 | Removing the row at one position removes exactly the rows carrying its key and keeps every other row. |
| `Store.WhereKeepsKeyOrder` | handler/item.go:55 | The rows a filtered `Find` returns keep the table's invariant. Their keys strictly increase, so the list comes in primary-key order. |
| `Store.Database.InsertUser` | handler/auth.go:167 | `db.Create(&user)` succeeds exactly when the call does not fail and neither the email nor the username is taken. On success it appends the row with the next key. The invariant, uniqueness included, is kept. On failure nothing changes. |
| `Store.Database.InsertItem` | handler/item.go:105 | `db.Create(&item)` appends the item under the next key, or changes nothing when the call fails. |
| `Store.Database.SaveItem` | handler/item.go:206 | `db.Save(&item)` overwrites the row with the item's key and no other row, or changes nothing when the call fails. |
| `Store.Database.DeleteItemRow` | handler/item.go:236 | `db.Delete(&item)` removes the row with the item's key and keeps the others in order, or changes nothing when the call fails. |
| `Store.Database.InsertPost` | handler/post.go:66 | `db.Create(&post)` appends the post under the next key, or changes nothing when the call fails. |
| `Auth.CheckPasswordHash` | handler/auth.go:21-24 | If bcrypt round-trips, a password is accepted against any hash generated from it. |
| `Auth.GetUserByEmail` | handler/auth.go:26-36 | Three-way result: a storage error exactly when the call fails; not found (not an error) exactly when no user has the email; otherwise a stored user with that email. |
| `Auth.GetUserByUsername` | handler/auth.go:38-48 | The same three-way result for the username. This corrected lookup never returns a user whose username differs from the key. |
| `Auth.FoundByEmail` | model/user.go:7 | In a table with unique credentials, every user is found by its own email. |
| `Auth.FoundByUsername` | model/user.go:6 | In a table with unique credentials, every user is found by its own username. |
| `Auth.GetUserByUsernameAsWritten` | handler/auth.go:41 | The lookup as written agrees with the corrected one on every non-empty username and on the storage-error case. |
| `Auth.EmptyUsernameMatchesFirstUser` | handler/auth.go:41-47 | When every user has a non-empty username, the empty username matches nobody, yet the lookup as written returns the first user. |
| `Auth.ValidateRegistration` | handler/auth.go:136-144 | Registration input passes exactly when the email parses, the password has at least 8 bytes and the username at least 3. Otherwise the answer is 400 with the message of the first failed rule, checked in that order. |
| `Auth.Login` | handler/auth.go:56-128 | Routes the identity to the email lookup exactly when it parses as an address, and to the username lookup otherwise. A storage error gives 500, no cookie and no password check. Unknown identity and wrong password both give the identical 401 response; on the unknown path the one password check is against the dummy hash. On success the claims are username, user id and `now + 72h`, the reply carries id, username, email and token, and the cookie `jwt` expires at `now + 24h`. A token is issued only for a stored user whose hash the password matches, and the table is not changed. |
| `Auth.Register` | handler/auth.go:131-172 | Checks run in order: body, the three validation rules, email conflict (409) before username conflict (409), then hashing, then the insert, each failure with its own response. Any failure leaves the table unchanged. Success appends exactly one row under the next serial key, whose password is the generated hash, advances the key by one, and replies with id, username and email only. Uniqueness is preserved. |
| `Items.GetAllItems` | handler/item.go:16-42 | A storage error gives 500. Otherwise 404 "No items found" exactly when the table is empty, and otherwise 200 with the whole table. |
| `Items.GetItemFromCategory` | handler/item.go:45-76 | A path id that is not an integer gives 400, and a storage error 500. Otherwise, when some item has that category, the reply is 200 with exactly those items in table order; when none has, it is 404 with the raw id in the message. |
| `Items.GetItemFromUser` | handler/item.go:118-149 | The same as for categories, keyed by owner. |
| `Items.FindItem` | handler/item.go:162 | `db.First(&item, id)` gives the item with that key, not found exactly when there is none, or the storage error. |
| `Items.GetItemFromId` | handler/item.go:152-172 | A bad path id gives 400. Otherwise a found item is answered with 200 and that item, and 404 is given exactly when the query fails or no item has the id. |
| `Items.CreateItem` | handler/item.go:79-115 | A bad body gives 400 before the identity is checked. No identity gives 401. On success exactly one item is appended under the next serial key, which advances by one, owned by the caller whatever the body's owner field says. Any failure leaves the table unchanged. |
| `Items.UpdateItem` | handler/item.go:175-211 | Guards run in order: bad id 400, no identity 401, missing item or failed query 404, not the owner 403. Only after those is the body checked (400). A non-owner is refused whatever the body. Success overwrites name, description and price of that item only, and keeps every item's id, owner and category. Any failure leaves the table unchanged. |
| `Items.DeleteItem` | handler/item.go:214-241 | The same guard order as update. Success removes exactly the named item, so the table shrinks by one, and keeps the rest in order. Any failure leaves the table unchanged. |
| `Posts.GetPostFromUser` | handler/post.go:15-46 | A bad path id gives 400, and a storage error 500. Otherwise, when the user has posts, the reply is 200 with exactly those posts in table order; when not, it is 404 with the raw id in the message. |
| `Posts.CreatePost` | handler/post.go:49-80 | A bad body gives 400. Otherwise exactly one post is appended as parsed under the next serial key, which advances by one, its author taken from the body's `user_id`, or nothing changes when the insert fails. |
| `Scenarios.RegisterThenLogin` | handler/auth_test.go:68-83 | On an empty database, registration succeeds exactly when the input validates and hashing succeeds. Then, given bcrypt's round trip and working signing, logging in with that email and password succeeds and returns that user. |
| `Scenarios.RegisterTwice` | handler/auth_test.go:53-66 | After a successful registration, a valid second registration with the same email is refused with 409 "Email already exists". One with a new email but the same username is refused with 409 "Username already exists". |
| `Scenarios.IntruderIsForbidden` | handler/item_test.go:146-200 | An item created by one user cannot be updated or deleted by another authenticated user. Both get 403, and the table still holds the item unchanged. |
| `Scenarios.OwnerEditsThenDeletes` | handler/item_test.go:98-144 | The owner's update succeeds and changes only name, description and price. The owner's delete then succeeds and empties the table. |

## Left out

- `valid` (`net/mail.ParseAddress`, RFC 5322 section 3.4 address syntax) is the opaque `Primitives.parseAddress`. The grammar is not modelled.
- bcrypt and HS256 JWT signing are opaque functions, and hashing is deterministic in the model. bcrypt's random salt and adaptive cost are not modelled. Nor is the timing the dummy-hash check is there to equalise: the model records only that the check is made.
- `Strconv.Atoi`: the 64-bit range limit of `strconv.Atoi` is not modelled; a long digit string parses to its unbounded value.
- Request parsing: each JSON body is `None` when Fiber's `BodyParser` fails and a record of the fields the handler uses otherwise. The `errors` text of error replies, the `status` field and the `data: null` fields are not modelled. Nor is the error object that `Login` puts in `data` when the user lookup fails (handler/auth.go:87).
- A primary key supplied in a request body is ignored. Every insert takes the next serial key, and the keys of deleted rows are never reused.
- GORM's upsert of nested associations parsed from a request body is not modelled. These are `user`, `category`, `reviews` and `orders` of an item, `posts`, `likes` and `comments` of a user, and `likes` and `comments` of a post. A nested `category` with an id also overrides the item's `category_id`. Neither are foreign-key checks on `category_id` or a post's `user_id`; such a rejection is one more failed `Outcome`.
- `Price` is a float64 carried as its 64-bit pattern and only copied.
- `middleware.GetUserID` (its float64-to-uint truncation and its panic when no token is attached) and the `Protected` middleware are outside the model. The handlers receive the caller's id as `Option<nat>`.
- Logging (`log`, `fmt`) and the cookie's transport are I/O. `Login` calls `time.Now` twice; the model uses one `now` for both.
- `RefreshToken`, `HashPassword`, the user handlers and `Logout` are outside this model, and so are routing, configuration and the database connection.
- A `Find` without `ORDER BY` returns rows in an order the database leaves open. The model returns them in primary-key order, which is the order of the table sequences.
- `Auth.GetUserByEmail`: the empty email would meet the same zero-value rule as the empty username (see Findings). The model leaves that case out because both callers pass only text that `net/mail.ParseAddress` accepted, and it never accepts the empty text.
- Concurrent registrations are not modelled. The unique constraints of the user table are modelled only as a sequential check in `Store.Database.InsertUser`.
- `Auth.Register`: does not state that the stored hash differs from the plaintext, because that holds only by bcrypt's own design and is not a property of the opaque hash function.

## Findings

| source | as written | input that shows it | evidently intended | confidence | as-written member | corrected member |
|---|---|---|---|---|---|---|
| handler/auth.go:41 | `db.Where(&model.User{Username: u}).First(&user)`. GORM drops zero-valued struct fields from the condition, so for `u == ""` the query has no condition and returns the user with the smallest key. | A user table `[alice]`, and `Login` with identity `""` (not an address, so the username lookup runs) and alice's password. The lookup returns alice instead of "not found", and the login succeeds as alice. The lemma proves the lookup-level discrepancy; the `Login` consequence follows from `Auth.Login`'s found path and is argued, not proved. | An empty username matches no user, and `Login` answers 401 after the dummy check. | medium: relies on GORM's documented struct-condition rule; not executed | `Auth.GetUserByUsernameAsWritten`, `Auth.EmptyUsernameMatchesFirstUser` | `Auth.GetUserByUsername` (used by `Auth.Login` and `Auth.Register`) |
