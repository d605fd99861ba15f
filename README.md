# LGSTech backend: subscriber registry and contact form, modelled in Dafny

This project models the request handling of the LGSTech marketing-site backend
(`server.js`), an Express server with two jobs:

- It forwards contact-form submissions (`POST /send`) to the support mailbox.
- It keeps a mailing-list registry in a `subscribers` table with columns
  `email` and `created_at`. The routes are `POST /subscribe`,
  `POST /unsubscribe` and `GET /admin/subscribers`.

Each handler becomes a deterministic function of the request fields, the
table contents, and one success flag per collaborator call that can throw.
Those calls are the database queries and `transporter.sendMail`. The
subscribe handler also takes a fourth input: the clock reading `now` that
becomes the new row's `created_at`.

Modules:

- `EmailFormat` (EmailFormat.dfy): the address normalisation `trim()` +
  `toLowerCase()`, and the pattern `^[^\s@]+@[^\s@]+\.[^\s@]+$`. The pattern
  is stated as a language. It is proved equal to its plain reading: no white
  space, exactly one `@`, a non-empty local part, and a domain holding a `.`
  with text on both sides.
- `Registry` (Registry.dfy): the table as a sequence of
  `Subscriber(email, createdAt)` rows, and the four helper queries:
  - `isEmailSubscribed` is an existence test;
  - `addSubscriber` appends a row;
  - `removeSubscriber` is a DELETE by exact match;
  - `listSubscribers` returns every row, newest first.
- `Responses` (Responses.dfy): a reply is a status plus a `{success}`,
  `{error}` or `{subscribers}` body.
- `Contact` (Contact.dfy): the `/send` handler and the `\n` → `<br>`
  replacement.
- `Routes` (Routes.dfy): the class `Backend` holds the table in the field
  `subscribers`. Its methods `Subscribe` and `Unsubscribe` follow the
  handlers step by step, early returns included. They are proved against the
  specification functions `SubscribeSpec` and `UnsubscribeSpec`, and the
  lemmas state the registry's properties about those functions.

The model follows what `server.js` does, including where that differs from
what a reader might expect:

- A failing confirmation mail makes `/subscribe` answer 500, and the row
  already inserted stays. A best-effort confirmation would still answer 200.
- `/unsubscribe` deletes the address exactly as sent, without trimming or
  lower-casing, so " User@Example.com" does not remove the stored
  "user@example.com".
- `addSubscriber` performs no conflict check of its own, and the code shows
  no uniqueness constraint. So `AddSubscriber` appends unconditionally. "At
  most one row per address" is proved only for tables written through the
  routes (`Registered`, preserved by both handlers).
- With `ADMIN_KEY` unset, a request without an `x-api-key` header is
  admitted, because `undefined !== undefined` is false (`AdminOpenWhenKeyUnset`).

## Model

| member | source | states |
|---|---|---|
| `EmailFormat.TrimStart` | server.js:174 | the leading part `trim` drops is all white space, and what is left does not start with white space |
| `EmailFormat.TrimEnd` | server.js:174 | the trailing part `trim` drops is all white space, and what is left does not end with white space |
| `EmailFormat.Trim` | server.js:174 | the result of `trim()` neither begins nor ends with white space |
| `EmailFormat.TrimOfPadded` | server.js:174 | `trim` removes exactly the white space around a trimmed text: any white-space padding on either side is cut back to that text |
| `EmailFormat.TrimIdempotent` | server.js:174 | trimming a trimmed string changes nothing |
| `EmailFormat.LowerChar` | server.js:174 | `toLowerCase` on one character: each of A-Z becomes the letter at the same position of "abcdefghijklmnopqrstuvwxyz", every other character is unchanged, and no ASCII capital is ever returned |
| `EmailFormat.ToLower` | server.js:174 | `toLowerCase()` keeps the length and lowers each character in place |
| `EmailFormat.Normalize` | server.js:174 | the normalised address is no longer than the input, trimmed, and has no ASCII capital |
| `EmailFormat.NormalizedIsFixedPoint` | server.js:174 | the strings normalisation leaves unchanged are exactly the trimmed ones without capitals |
| `EmailFormat.NormalizeIdempotent` | server.js:174 | normalising a normalised address changes nothing |
| `EmailFormat.NormalizeOfPadded` | server.js:174 | normalisation drops the surrounding white space and lower-cases the rest |
| `EmailFormat.NormalizeExample` | server.js:174 | "  User@Example.com " normalises to "user@example.com" |
| `EmailFormat.RegexMeansWellFormed` | server.js:179-180 | the pattern matches iff: no white space, exactly one '@' with text before it, and a '.' after it with text on both sides |
| `EmailFormat.NormalizeAddsNoMarks` | server.js:174 | trimming and lower-casing put no '@' and no '.' into an address that had none |
| `EmailFormat.NormalizeOfUnmarked` | server.js:174-180 | an input lacking '@' or lacking '.' never normalises to a well-formed address, so the pattern refuses it |
| `EmailFormat.RegexExamples` | server.js:179-181 | "notanemail", "a@b" and "" fail the pattern; "user@example.com" matches |
| `Registry.SubscribedIffCounted` | server.js:69-76 | `isEmailSubscribed` is true iff at least one row carries exactly that address |
| `Registry.CountAppend` | server.js:78-90 | an INSERT adds one row for its own address and none for any other |
| `Registry.Without` | server.js:92-99 | the DELETE removes every row with exactly that address and keeps every other row, each as often as before |
| `Registry.WithoutIdempotent` | server.js:92-99 | after the DELETE the address is absent, and a second identical DELETE changes nothing |
| `Registry.WithoutUnchangedWhenAbsent` | server.js:92-99 | a DELETE that matches no row leaves the table as it was |
| `Registry.WithoutShrinksIffSubscribed` | server.js:98 | `rowsAffected[0] > 0` holds iff the address was present |
| `Registry.ListSubscribers` | server.js:101-106 | the listing is ordered by `created_at` descending and holds exactly the table's rows |
| `Contact.ReplaceNewlines` | server.js:152 | no line feed is left after `replace(/\n/g, "<br>")`, and each one has grown by three characters |
| `Contact.ReplaceNewlinesAppend` | server.js:152 | the replacement works piece by piece: replacing in a concatenation is concatenating the replacements |
| `Contact.ReplaceNewlinesKeepsPlainText` | server.js:152 | text without line feeds is left unchanged |
| `Contact.ReplaceNewlinesOfNewline` | server.js:152 | a single line feed becomes `<br>` |
| `Contact.ContactSend` | server.js:115-169 | 400 "All fields are required" and no mail iff name, email or message is missing or empty. Otherwise the mail goes to the support address, replying to the sender, with subject "New Contact Message from <name>" and the message with `<br>` line breaks. The reply is 200 iff the send succeeds, else 500 |
| `Routes.SubscribeSpec` | server.js:172-216 | a row is added only for a valid, normalised address not yet in the table, appended after every earlier row. A 200 reply means it was added, and a confirmation goes out iff a row was added |
| `Routes.UnsubscribeSpec` | server.js:219-231 | 400 iff the address is missing or empty; 200 iff it is present and the delete works, in which case the table loses exactly the rows with that raw address; a failing delete gets 500 "Failed to unsubscribe. Try again later."; no other status occurs, and on any status but 200 the table is unchanged |
| `Routes.Backend.AddSubscriber` | server.js:78-90 | `addSubscriber` appends one row with the address and the insertion time |
| `Routes.Backend.RemoveSubscriber` | server.js:92-99 | `removeSubscriber` deletes every row with exactly that address, and reports true iff one was there |
| `Routes.Backend.Subscribe` | server.js:172-216 | the handler's reply, new table and mailed address are those of `SubscribeSpec`, and it keeps the table `Registered` |
| `Routes.Backend.Unsubscribe` | server.js:219-231 | the handler's reply and new table are those of `UnsubscribeSpec`, and it keeps the table `Registered` |
| `Routes.Backend.AdminSubscribers` | server.js:235-249 | 401 "Unauthorized" iff the `x-api-key` header differs from the configured key, with an absent header equal to an unset key. A 200 reply needs the listing to succeed and holds every row, newest first |
| `Routes.SubscribeKeepsRegistered` | server.js:172-216 | subscribe keeps every address normalised and well-formed, and keeps each address on at most one row |
| `Routes.SubscribeNeverDuplicates` | server.js:183-188 | if subscribe raises any address's row count, that address was absent and now has exactly one row |
| `Routes.UnsubscribeKeepsRegistered` | server.js:219-231 | unsubscribe keeps every address normalised and well-formed, and keeps each address on at most one row |
| `Routes.SubscribeRejectsRequired` | server.js:174-177 | a missing address, or one empty after trimming, gets 400 "A valid email is required"; the reply depends neither on the table nor on any collaborator, and the table is unchanged |
| `Routes.SubscribeRejectsFormat` | server.js:179-181 | a non-empty address that is not well-formed gets 400 "Please provide a valid email format"; the reply does not depend on the table, and the table is unchanged |
| `Routes.SubscribeRejectsUnmarked` | server.js:174-181 | any input lacking '@' or lacking '.' gets 400 and leaves the table unchanged, whatever the database and the mailer would do |
| `Routes.SubscribeRejectsExamples` | server.js:174-181 | "notanemail", "a@b" and "" get 400 and leave the table unchanged |
| `Routes.SubscribeStoreFailure` | server.js:184-214 | a valid address whose lookup throws, or a fresh one whose insert throws, gets 500 "Failed to subscribe. Try again later.", with the table unchanged and no mail |
| `Routes.SubscribeRejectsDuplicate` | server.js:183-185 | with a working lookup, a well-formed address already present once normalised gets 400 "Email already subscribed", with the table unchanged and no mail |
| `Routes.SubscribeAddsFresh` | server.js:184-214 | with lookup and insert working, a fresh valid address gets exactly one new row holding its normalised form, after all earlier rows. The confirmation goes to that form. The reply is 200, or 500 if the mail fails, and the row stays either way |
| `Routes.SubscribeTwiceIsDuplicate` | server.js:184-188 | after subscribe has added the row for a fresh valid address (lookup and insert working), subscribing any address with the same normalised form is refused as a duplicate and adds nothing, given a working lookup |
| `Routes.SubscribeExample` | server.js:174-188 | with "user@example.com" absent and lookup and insert working, "  User@Example.com " is stored as "user@example.com", and a later "user@example.com" gets 400 "Email already subscribed" |
| `Routes.UnsubscribeRemoves` | server.js:221-226 | a non-empty address with a working delete gets 200; afterwards no row carries exactly that address, and every other address keeps its rows |
| `Routes.UnsubscribeTwice` | server.js:221-226 | with working deletes, unsubscribing a non-empty address twice answers 200 both times, and the second call leaves the table as the first left it |
| `Routes.AdminOpenWhenKeyUnset` | server.js:238-243 | with the key unset, a request without the header is admitted, and any request that sends the header is refused |

## Left out

- Express setup, CORS, JSON body parsing, `listen` and the `GET /` liveness route (server.js:11-15, 110-112, 251): HTTP plumbing. Each handler becomes a method or function from request fields to a reply.
- The nodemailer transport, the HTML mail templates and `encodeURIComponent` in the unsubscribe link (server.js:20-28, 121-162, 191-208): outbound I/O and presentation. What stays is whether `sendMail` succeeded, plus the recipient (both routes) and the reply-to and subject (contact form).
- The mssql configuration and the lazily created, reset-on-failure connection pool (server.js:34-64): asynchronous connection management. Any failure of a query is a `false` success flag.
- The `SCOPE_IDENTITY()` id that `addSubscriber` returns (server.js:84-89): the database generates it and no caller uses it.
- `created_at`: the model takes the insertion time as the parameter `now`. The column's default lives in the schema, and the schema is not part of this model.
- The database's comparison rules. `email = @email` is modelled as exact string equality. A case-insensitive or trailing-blank-insensitive collation, and the `VarChar(255)` parameter type, are not modelled.
- `EmailFormat.LowerChar`: lowers only the ASCII capitals A-Z. JavaScript's `toLowerCase` also lowers non-ASCII capitals (accented Latin, Greek, Cyrillic and others), and the full Unicode case table is outside the model.
- `EmailFormat.ToLower`: lower-cases only the ASCII letters A-Z. JavaScript's `toLowerCase` also maps non-ASCII capitals. White space, by contrast, is JavaScript's full `trim` / `\s` set.
- Request fields that are JSON values but not strings. Every field is an optional string. The 500 that `?.trim()` raises on such a value in `/subscribe`, and the non-string handling of `/send` and `/unsubscribe`, are not modelled.
- `Registry.ListSubscribers`: SQL leaves the order of rows with equal `created_at` open. The model returns one particular order, and its contract states only what the query promises.
- Concurrent requests and their interleavings: the model runs one handler call at a time on one table.
- Logging with `console.error`.
