# BookLoop server: messaging, location and sign-up logic in Dafny

BookLoop is a book-exchange web application. Its server (`server.js`) is mostly
Express routes around a Firestore document store. This project models the parts
of those routes that compute something:

- **Chat thread** (`/get-messages`, `/chat/:receiver`). The store returns every
  message whose `participants` contain the current user, in ascending time. The
  route then keeps the messages exchanged with the receiver, in either
  direction, comparing all names after `toLowerCase()`.
- **Dashboard inbox** (`/dashboard`, and the same loop in `/inbox`). The store
  returns the user's messages newest first. The route walks them and fills a
  `Map` keyed by the counterpart: the receiver when the user is the sender
  (exact `===`), otherwise the sender. Only the first message per counterpart is
  kept, and the rows are read back in insertion order.
- **Location drop-down and filter** (`/books`). A `Map` keyed by
  `location.trim().toLowerCase()` keeps the first trimmed spelling of each
  location. The listing is filtered by the normalised selected location; an
  empty selection shows every book. `/browse-books` does the same with exact
  comparison and a `Set`.
- **Sign-up input check** (`POST /auth`).
- **Message construction** (`/send-message` and the socket `sendMessage`
  handler). `participants` is always `[sender, receiver]`.

Modules:

- `Wrappers` holds `Option`.
- `Text` holds `toLowerCase`, `trimStart`, `trimEnd` and `trim`.
- `Collections` holds `Array.prototype.filter` as `Filter`. It also holds the
  first-occurrence deduplication that a `Map` or `Set` filled "only if the key
  is new" produces, as `KeepFirst`. `ReadsBackAs` relates a Dafny `map` plus
  its insertion order to what `Array.from(m.values())` returns.
- `Messaging`, `Books` and `Auth` hold the routes' logic.

The two `Map` loops are modelled as methods with loops over a `map` and an
insertion-order `seq`: `Messaging.AggregateInbox` and
`Books.CollectUniqueLocations`. Each is proved equal to a function (`Inbox`,
`UniqueLocations`), and the properties the routes promise are proved about those
functions. Store queries are inputs: a message sequence is the store's answer,
and its ordering is a precondition where the code relies on it.

Three facts about the code that shape the model:

- The inbox compares counterparts exactly (`server.js:261`), so "Bob" and "bob"
  get two rows (`Messaging.InboxSeparatesCase`).
- The chat filter lower-cases names, but the store query feeding it
  (`array-contains`, `server.js:144-146`) compares exactly. So a message sent as
  "Ann" never reaches the filter for user "ann" (`Messaging.ChatDropsOtherCase`),
  although the filter itself would accept it (`Messaging.ThreadMatchesAnyCase`).
- `Messaging.ConversationKey` is an order-independent, case-insensitive key for
  a pair of users that the code never computes. It is an independent reference
  definition that the chat filter is proved equivalent to.

## Model

| member | source | states |
|---|---|---|
| Messaging.Touches | server.js:253-256 | no contract of its own (exact `array-contains` test); characterised by `Messaging.TouchesEndpoint` |
| Messaging.MessagesTouching | server.js:294-296 | no contract of its own (the store query as a filter of the store's answer); characterised by `Messaging.TouchesEndpoint`, `Messaging.ChatDropsOtherCase` and `Messaging.SentMessageEndsChat` |
| Messaging.Thread | server.js:300-307 | no contract of its own; characterised by `Messaging.ThreadIsConversation`, `Messaging.ThreadSymmetric` and `Messaging.ThreadKeepsTimeOrder` |
| Messaging.Counterpart | server.js:261 | no contract of its own (exact `===` test); characterised by `Messaging.NewMessageReachesBoth` and `Messaging.InboxSeparatesCase` |
| Messaging.Inbox | server.js:258-271 | no contract of its own; characterised by `Messaging.InboxOnePerCounterpart`, `Messaging.InboxKeepsFirstMessage` and `Messaging.InboxNewestFirst`, and computed by `Messaging.AggregateInbox` |
| Books.HasLocation | server.js:56 | no contract of its own (`if (book.location)`); characterised by `Books.LocatedSnoc` |
| Books.LocationKey | server.js:68 | no contract of its own (`(book.location \|\| "").trim().toLowerCase()`); characterised by `Books.OfferedKeys` and `Text.NormalizeTrim` |
| Books.UniqueLocations | server.js:54-63 | no contract of its own; characterised by `Books.UniqueLocationsDistinct`, `Books.UniqueLocationsCover`, `Books.UniqueLocationsFromBooks` and `Books.UniqueLocationsFirstSpelling`, and computed by `Books.CollectUniqueLocations` |
| Books.FilterByLocation | server.js:66-70 | no contract of its own; characterised by `Books.FilterByLocationSpec` |
| Books.BrowseLocations | server.js:180 | no contract of its own; characterised by `Books.BrowseLocationsDistinct` |
| Books.BrowseFilter | server.js:183-185 | no contract of its own; characterised by `Books.BrowseFilterWithinFilter` and `Books.BrowseFilterIsExact` |
| Text.Normalize | server.js:68 | no contract of its own (`trim()` then `toLowerCase()`); characterised by `Text.NormalizeTrim` |
| Messaging.NewMessage | server.js:396-402 | the stored document carries the given sender, receiver, text and time, and its participants are exactly the two endpoints |
| Messaging.TouchesEndpoint | server.js:253-256 | for a document whose participants are its endpoints, the `array-contains` query for a user returns it exactly when the user is its sender or receiver, compared exactly |
| Messaging.NewMessageReachesBoth | server.js:213-219 | a sent message is found by either endpoint's query and nobody else's; it is in the chat of its endpoints in both directions; and each endpoint is the other's inbox counterpart |
| Messaging.InThreadIsSameConversation | server.js:302-307 | the two-way lower-cased test holds exactly when the unordered, lower-cased pair of the message's endpoints equals that of the two users |
| Messaging.ThreadIsConversation | server.js:300-307 | the chat holds every fetched message of the conversation, with all its copies, and no other message; filtering a concatenation concatenates the filtered parts, so the store's order is kept |
| Messaging.ThreadSymmetric | server.js:302-307 | swapping the two users gives the same chat |
| Messaging.ThreadCaseInsensitive | server.js:150-155 | over the same fetched messages, user names that are equal after lower-casing give the same filter result (the fetch itself compares exactly, see `Messaging.ChatDropsOtherCase`) |
| Messaging.ThreadKeepsTimeOrder | server.js:144-155 | when the store returns ascending timestamps, the chat is in ascending time order without a sort of its own |
| Messaging.ThreadMatchesAnyCase | server.js:152-155 | a message from "Ann" to "bob" passes the filter for user "ann" and receiver "bob" |
| Messaging.ChatDropsOtherCase | server.js:144-155 | the exact query for "ann" does not return the message sent by "Ann", so the chat is empty |
| Messaging.SentMessageEndsChat | server.js:208-221 | a message stored after all others is the last line of the sender's chat with the receiver, after everything already there |
| Messaging.InboxSnoc | server.js:259-269 | one more message adds a row exactly when its counterpart, compared exactly, has none yet; it also adds that counterpart to the set held |
| Messaging.InboxAdded | server.js:262-268 | setting a new counterpart's row keeps the map equal to the inbox of the messages walked so far |
| Messaging.InboxSkipped | server.js:261-262 | a message whose counterpart is already held leaves the map equal to the inbox of the messages walked so far |
| Messaging.AggregateInbox | server.js:258-271 | the `Map` loop and the read-back return exactly `Inbox(msgs, user)` |
| Messaging.InboxOnePerCounterpart | server.js:259-271 | the inbox has one row per distinct counterpart string, and the rows' users are exactly the counterparts of the fetched messages |
| Messaging.InboxKeepsFirstMessage | server.js:262-271 | each row carries the counterpart, text and time of the first fetched message with that counterpart, and the rows come in the order those first messages were fetched |
| Messaging.InboxNewestFirst | server.js:253-271 | when the store returns descending timestamps, each row shows the newest message with its counterpart and the rows run from the most recent counterpart to the least |
| Messaging.NewestOnTop | server.js:258-271 | the first fetched message always gives the first row |
| Messaging.SentMessageTopsInbox | server.js:396-402 | a new message fetched first puts each endpoint at the top of the other's inbox, showing that message |
| Messaging.InboxOfTwo | server.js:259-271 | two messages with different counterparts give two rows in fetched order |
| Messaging.InboxOfThree | server.js:259-271 | a third message whose counterpart was already seen adds no row |
| Messaging.InboxSeparatesCase | server.js:261 | messages from "Bob" and from "bob" give two separate rows |
| Messaging.InboxScenario | server.js:253-271 | messages B to A at t3, A to C at t2, A to B at t1, fetched newest first, give A the rows B (t3) and C (t2), in that order |
| Books.LocatedSnoc | server.js:56 | a book joins the books that contribute locations exactly when its location is present and non-empty |
| Books.UniqueLocationsSnoc | server.js:55-62 | one more book adds its trimmed spelling exactly when it has a location whose normalised key is new |
| Books.LocationAdded | server.js:57-60 | setting a new key keeps the map equal to the drop-down of the books walked so far |
| Books.LocationSkipped | server.js:56-58 | a book without a location, or with a key already held, leaves the map equal to the drop-down of the books walked so far |
| Books.CollectUniqueLocations | server.js:54-63 | the `Map` loop and the read-back return exactly `UniqueLocations(books)` |
| Books.OfferedKeys | server.js:57-59 | each offered spelling normalises to the key of the book it was taken from |
| Books.UniqueLocationsDistinct | server.js:54-63 | no two offered locations are equal after trimming and lower-casing |
| Books.UniqueLocationsCover | server.js:55-62 | every book with a location finds its normalised location offered |
| Books.UniqueLocationsFromBooks | server.js:56-59 | every offered location is the normalised location of some book that has one |
| Books.UniqueLocationsFirstSpelling | server.js:58-59 | each offered location is the trimmed spelling of the first book with a location that has its key |
| Books.FilterByLocationSpec | server.js:66-70 | an empty selection returns the books unchanged; any other returns every book, with all its copies, whose normalised location (missing read as "") is the normalised selection, and no other book, in the books' order |
| Books.OfferedLocationsSelectBooks | server.js:54-70 | choosing any offered location lists at least one book |
| Books.BlankSelectionKeepsUnlocated | server.js:66-68 | the selection " " filters, normalises to "" and keeps only the book without a location |
| Books.BrowseLocationsDistinct | server.js:180 | the browse drop-down lists each distinct location once, a missing location included, every book's location is listed, nothing else is, and the order is that of first occurrence |
| Books.BrowseFilterWithinFilter | server.js:182-185 | the exact browse filter keeps the books of the normalising filter whose location is exactly the selection |
| Books.BrowseFilterIsExact | server.js:183-185 | the selection "pune" finds a "Pune" book on `/books` but not on `/browse-books` |
| Auth.SignUp | server.js:332-342 | invalid input exactly when name, e-mail or password is missing or empty, or the password is shorter than six characters; for valid input, "already exists" exactly when the e-mail is taken; otherwise the session holds the posted name and e-mail |
| Auth.SignUpChecksBeforeStore | server.js:332-336 | whether input is refused as invalid does not depend on the store's answer |
| Auth.PasswordBoundary | server.js:332 | a five-character password is refused and a six-character one accepted |
| Text.Lower | server.js:57 | keeps the length and leaves no ASCII capital letter; the character-by-character meaning is `Text.LowerAt` |
| Text.LowerAt | server.js:57 | every character of the result is `LowerChar` of the input character at the same position |
| Text.LowerIdempotent | server.js:68 | lower-casing twice is lower-casing once |
| Text.Trim | server.js:57 | the trimmed string is no longer than the input and, when not empty, neither starts nor ends with white space; that it is a slice of the input is `Text.TrimSlice` |
| Text.TrimStartSlice | server.js:57 | `trimStart` returns a suffix of the input, and everything it drops is white space |
| Text.TrimEndSlice | server.js:57 | `trimEnd` returns a prefix of the input, and everything it drops is white space |
| Text.TrimSlice | server.js:57 | the trimmed string is a slice `s[i..j]` of the input with only white space before `i` and after `j`; with `Text.Trim`, the input with exactly its leading and trailing white space removed |
| Text.TrimmedIsFixed | server.js:59 | a string with no white space at either end is its own trim |
| Text.TrimIdempotent | server.js:57-59 | trimming twice is trimming once |
| Text.NormalizeTrim | server.js:57-59 | normalising an offered (trimmed) spelling gives the same key as normalising the location it came from |
| Collections.FilterMembers | server.js:66-70 | a filter keeps only elements of the input that satisfy the predicate, and keeps every one that does |
| Collections.FilterAppend | server.js:300-307 | filtering a concatenation is concatenating the filtered parts |
| Collections.FilterCount | server.js:300-307 | a filter keeps every copy of a matching element and no copy of any other |
| Collections.FilterKeepsOrder | server.js:300-307 | a filter of a sequence sorted by a key is sorted by that key |
| Collections.FilterAgree | server.js:302-307 | predicates that agree everywhere filter alike |
| Collections.FilterWeaker | server.js:184 | filtering by a predicate is filtering by it after a weaker one |
| Collections.KeepFirstSpec | server.js:258-271 | first-occurrence deduplication keeps one element per key, represents every key, keeps the first element with each key, and orders them by first occurrence |
| Collections.KeepFirstHead | server.js:258-271 | the first element of a non-empty input is kept, in front |
| Collections.FirstIndexOf | server.js:262 | the index returned holds the key and no earlier element does |
| Collections.ReadsBackInsert | server.js:58-63 | setting a key a `Map` does not hold appends its value to what `Array.from(m.values())` returns |

## Left out

- Express routing, sessions and the `isAuthenticated` middleware: framework code. The session user is a parameter.
- Firestore: every query result is an input sequence. `orderBy("timestamp")` and `orderBy("timestamp", "desc")` become the preconditions `Ascending` and `Descending`. The store's failure paths (the `catch` blocks that answer 500 or re-render) are not modelled.
- `new Date()` and `timestamp.toDate()`: times are integers, and the clock is the `now` parameter of `NewMessage`.
- The socket.io channel (`io.on`, `io.emit`) is transport and concurrency. Only the document it stores is modelled (`NewMessage`). The handler does no validation of its payload. If the store's `add` throws, the message is not broadcast: the `catch` only logs. Delivery to connected clients is not modelled.
- bcrypt hashing on sign-up and the `/login` route are foreign cryptographic calls; only the input check before them is modelled. Writing the new user to `users` is not modelled either.
- multer uploads, `/list-book`, `/book_details` and EJS rendering are plumbing.
- The `/inbox` route never reaches its aggregation loop: its first line reads `req.session.user.email` (`server.js:95`), but the server only ever sets `req.session.userdata` (`server.js:342`, `server.js:357`), so it throws; its render call also uses names not defined there. The loop itself is the same as the dashboard's and is modelled once, by `Messaging.AggregateInbox`.
- The `/books` `catch` block refers to variables out of its scope; the error path is not modelled.
- Text.Lower: only ASCII letters are lower-cased; JavaScript's full Unicode case mapping is not modelled.
- Text.Trim: the white-space set is ECMAScript's WhiteSpace and LineTerminator code points, listed explicitly.
- Auth.SignUp: the password length is counted in characters, not in UTF-16 code units as JavaScript's `length` counts it.
- Values that JavaScript's truthiness tests would meet with other types (a numeric `location`, a non-string form field) are not modelled; fields are strings or missing.
