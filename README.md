# Personal library model

A Dafny model of the in-memory library logic of a small book-tracking service:
the `Book` record (models/book_model.py) and the handlers of
models/user_model.py that add a book found by a bibliographic search, group
the library by reading status, mark favourites, add reviews, and set and check
a salted password hash.

Files:

- `wrappers.dfy` — `Option`, the model of Python's `None`.
- `text.dfy` — ASCII lower-casing (`str.lower`), lower-case hex encoding
  (`bytes.hex`) with its decoder, and a character search.
- `book_model.dfy` — `Book` as a datatype whose constructor has the source's
  defaults; `ToDict` (`to_dict`) with its inverse `FromDict`; `BookString`
  (`__str__`) with a reader for the title.
- `library.dfy` — module `Library`: each handler as a function from the
  collections and the handler's inputs to the reply and the new collections,
  with the properties proved about them, and an invariant kept by every
  operation.
- `user_model.dfy` — module `UserModel`: class `User` (per-instance `id`,
  `username`, `salt`, `password_hash`) and class `SharedCollections`, holding
  the three lists the source declares at class scope (models/user_model.py:21-23).
  All `User` instances share one object of this class. Its methods run the
  handlers in place, with the source's search and grouping loops, and each is
  proved equal to the matching `Library` function and to keep its invariant.
  add_review's duplicate loop raises on its first iteration, so it becomes a
  test for a non-empty list.

How the model stands in for the source:

- A handler's `(payload, code)` tuple is a `Reply(code, payload)`. The payload
  keeps the structured parts and leaves out the message text: a book dictionary,
  the candidate list, or the grouped library. A Python exception is `Raised(name)`.
- The search call is an input, `Fetch`: either `FetchFailed` (a
  `RequestException`) or `Fetched(docs)`, a list of candidates. Each candidate's
  `title`, `author_name` and `isbn` may be absent.
- The `dict` that `get_library` builds is `StatusGroups(keys, groups)`: a map
  together with its keys in insertion order.
- SHA-512 is a parameter `sha512: string -> HexDigest`, where a digest is
  128 lower-case hex characters. The 64 random bytes behind the salt are a parameter too.

Notes on the source's behaviour:

- A duplicate add is answered with 400 (models/user_model.py:226-229).
- The three lists are class attributes, shared by every `User`
  (models/user_model.py:21-23).
- `add_review` stores the raw review text. Its duplicate loop (lines 342-347)
  rebinds `review` to each stored entry and reads `.id`, which a string lacks.
  So as written, the first review ever stored succeeds, and every later call
  that passes the two guards raises `AttributeError` (`Library.AddReview`). As
  a consequence at most one review is ever stored (`Library.Invariant`).

## Model

| member | source | states |
|---|---|---|
| `BookModel.ConstructorDefaults` | models/book_model.py:11-23 | omitted arguments default to author "Unknown", isbn None, status "Want to Read"; given arguments are stored unchanged |
| `BookModel.ToDict` | models/book_model.py:25-36 | the dictionary has exactly the keys id, title, author, isbn, status, each mapped to that field (isbn None as null) |
| `BookModel.ToDictRoundTrip` | models/book_model.py:25-36 | the book can be read back from its dictionary, so no information is lost |
| `BookModel.BookString` | models/book_model.py:38-43 | the display form is a quote, the title, `' by `, the author, ` (`, the status, `)`; its length is the sum of the parts plus 9 |
| `BookModel.TitleRecoverable` | models/book_model.py:38-43 | for a title with no quote character, the text between the first two quotes of the display form is the title |
| `Text.Lower` | models/user_model.py:222-224 | ASCII lower-casing keeps the length, lowers each upper-case letter and leaves no upper-case letter |
| `Text.HexEncode` | models/user_model.py:36 | `bytes.hex()` gives two lower-case hex digits per byte |
| `Text.HexRoundTrip` | models/user_model.py:36 | decoding the hex form gives back the bytes |
| `UserModel.SaltDecodesToEntropy` | models/user_model.py:36 | the salt from 64 random bytes is 128 hex characters that decode to those bytes |
| `UserModel.User.constructor` | models/user_model.py:25-29 | id and username, each None by default, are stored; salt and hash start absent, so no password is accepted |
| `UserModel.User.SetPassword` | models/user_model.py:31-39 | the salt becomes the hex of the random bytes and the hash the digest of password followed by salt; afterwards check_password accepts that password, whatever the salt |
| `UserModel.User.CheckPassword` | models/user_model.py:41-53 | false if salt or hash is absent or empty; otherwise true exactly when the stored hash equals the digest of password followed by salt |
| `Library.FirstWithId` | models/user_model.py:270-274 | the result is the index of the first book with the id, or None when no book has it |
| `UserModel.IndexOfId` | models/user_model.py:270-274 | the search loop returns exactly that first index or None |
| `Library.StatusKeys` | models/user_model.py:171-174 | there are no more keys than books, and a non-empty library has at least one key (membership, distinctness and order are the lemmas below) |
| `Library.WithStatus` | models/user_model.py:171-174 | a group is no longer than the library (its members are stated by `Library.WithStatusMembers`) |
| `Library.GetLibrary` | models/user_model.py:158-176 | code 200; group keys are the library's distinct statuses; each group is the to_dict list of the books with that status, in library order; favourites are to_dict of favorite_books, in order |
| `Library.GetLibraryEmpty` | models/user_model.py:165-168 | empty collections give `{books: {}, favorites: []}` |
| `Library.StatusKeysMembership` | models/user_model.py:171-174 | a status is a key of the grouping exactly when some library book has it |
| `Library.StatusKeysDistinct` | models/user_model.py:172-173 | no status is a key twice |
| `Library.StatusKeysFirstOccurrenceOrder` | models/user_model.py:171-174 | keys appear in the order of the first library book having each status |
| `Library.WithStatusMembers` | models/user_model.py:171-174 | a group holds only library books with its status, and every library book is in the group of its own status |
| `Library.GroupSizesSum` | models/user_model.py:171-174 | the group sizes add up to the library length, so each book is in exactly one group |
| `Library.GroupStep` | models/user_model.py:172-174 | one loop iteration extends the grouping of a prefix to the grouping of the prefix plus one book |
| `UserModel.SharedCollections.GetLibrary` | models/user_model.py:158-176 | the loop over the shared library returns exactly `Library.GetLibrary` of the current collections |
| `Library.CandidateTitle` | models/user_model.py:234 | the candidate's title, or "Unknown" when it has none |
| `Library.CandidateAuthor` | models/user_model.py:235 | the first of the candidate's author names, or "Unknown" when it has none |
| `Library.CandidateIsbn` | models/user_model.py:236 | the isbn is the first entry of a non-empty isbn list, otherwise None |
| `Library.SameBook` | models/user_model.py:221-225 | a duplicate means equal title and equal author ignoring case, whichever side is lowered; an exact match is a duplicate, and a duplicate has the same lengths |
| `Library.FirstDuplicate` | models/user_model.py:220-229 | the index of the first library book whose title and author equal the candidate's, ignoring case, or None when there is none |
| `Library.Listing` | models/user_model.py:250-255 | a 300 entry has exactly id (null), title, author and isbn, with "Unknown" for a missing title or author |
| `Library.NewLibraryBook` | models/user_model.py:232-238 | the new book has id library length + 1, status "Want to Read", the candidate's title and first author (default "Unknown") and first isbn or None; with ids 1..n its id is not taken |
| `Library.TitleGiven` | models/user_model.py:187 | a missing title and an empty title both fail the guard; any non-empty title passes |
| `Library.Commits` | models/user_model.py:215 | an author key or a single candidate commits; disambiguation is only asked for with two or more candidates and no author key |
| `Library.Commit` | models/user_model.py:215-244 | a duplicate gives 400, carries the first duplicate's to_dict and leaves the library unchanged; otherwise 200 and exactly one book appended, with id old length + 1, status "Want to Read", title and author from the candidate (default "Unknown"), its first isbn or None |
| `Library.AddBook` | models/user_model.py:179-258 | missing or empty title gives 400, failed fetch 500, no candidates 404, each with the library unchanged; several candidates and no author key give 300, with the library unchanged and one id-null entry per candidate; otherwise the commit on candidate 0; the library changes only on 200, by one book at the end |
| `Library.OnlyFirstCandidateUsed` | models/user_model.py:215-217 | on the commit path, two search results with the same first candidate give the same reply and library |
| `Library.AuthorSuppliedNeverAmbiguous` | models/user_model.py:215 | with an author key present the reply is never 300 |
| `Library.AddBookKeepsIdsSequential` | models/user_model.py:232-239 | if the ids are 1..n in order, they are 1..n or 1..n+1 after the call |
| `Library.ReAddIsDuplicate` | models/user_model.py:219-229 | after a successful add, the same request with the same search result is declined with 400, carrying the to_dict of the book just added, and the library is unchanged |
| `Library.ReplayIdsSequential` | models/user_model.py:232-239 | a library built only by add_book_personal_library has ids 1..n in order |
| `UserModel.SharedCollections.AddBookPersonalLibrary` | models/user_model.py:179-258 | the shared library and the reply are exactly those of `Library.AddBook`; the favourites and reviews are untouched; the invariant is kept |
| `Library.AddFavorite` | models/user_model.py:261-308 | no library book with the id gives 404, then a favourite with the id gives 400, both with nothing changed; otherwise only the first library book with that id changes, to status "Read", that book is appended to the favourites, and the reply is 200 with its to_dict |
| `Library.FavoriteTwiceRejected` | models/user_model.py:286-298 | favouriting the same id again right after a success gives 400 with nothing changed, and the book's status is "Read" |
| `UserModel.SharedCollections.AddBookFavoriteBooks` | models/user_model.py:261-308 | the shared collections and the reply are exactly those of `Library.AddFavorite`; the reviews are untouched; the invariant is kept |
| `Library.AddReview` | models/user_model.py:311-360 | an empty or missing review gives 400, an unknown book_id 404, neither touching the reviews; past both guards, a stored review makes the duplicate loop raise AttributeError with nothing changed, and with none stored the review is appended and returned with 200 |
| `UserModel.SharedCollections.AddReview` | models/user_model.py:311-360 | the shared reviews and the reply are exactly those of `Library.AddReview`; library and favourites are untouched; the invariant is kept |
| `UserModel.SharedCollections.constructor` | models/user_model.py:21-23 | the three shared lists start empty, which satisfies the invariant |
| `Library.Step` | models/user_model.py:158-360 | get_library changes nothing; each handler changes only its own collections |
| `Library.StepPreservesInvariant` | models/user_model.py:158-360 | every operation keeps the invariant: ids 1..n, favourites are Read library entries with distinct ids, at most one review |
| `Library.RunPreservesInvariant` | models/user_model.py:158-360 | any sequence of operations keeps the invariant |
| `Library.ReachableStatesAreConsistent` | models/user_model.py:21-23 | every state reached from the empty collections satisfies the invariant |

## Left out

- Database access is not modelled: `create_user_account`, `get_user_by_username` and the write in `update_password` (models/user_model.py:56-155) are I/O against SQLite.
- The search request (models/user_model.py:190-210) and its retrying, caching session (utils/openlibrary.py) are network I/O. Their outcome is the `Fetch` input. Its search parameters (title, author, `limit=5`) are not modelled; a missing `docs` key is `Fetched([])`.
- SHA-512 and `os.urandom` are foreign primitives: both are parameters. The UTF-8 encoding before hashing is folded into the digest function.
- `UserModel.User.CheckPassword`: the model does not claim that a wrong password is rejected, because that would need the hash to be injective.
- The Flask layer (`jsonify`, app.py), log calls and the message strings are left out. So is `jsonify`'s key sorting: the model keeps the insertion order of the dict the handler builds.
- The root-level user_model.py is a draft that does not parse and is not modelled.
- `delete_review` (models/user_model.py:364-370) is an empty stub, so there is nothing to model.
- Deleting a book, updating a status, listing reviews and the `Review` class appear only in tests/test_user_model.py. models/user_model.py does not define them (tests/test_user_model.py imports `Review` from it, but the module has no such class), so they are not modelled.
- `Library.AddBook`: requires every candidate's `author_name`, when present, to be non-empty. The source raises IndexError only on the lists it indexes, so the model's requirement is stronger than the source's behaviour.
- `Text.Lower`: models `str.lower` on ASCII only; Unicode case mapping is not modelled.
- Aliasing is not modelled: a `Book` is a value, so a favourite is a copy of the library entry at the moment it was favourited. The source appends the same object, so a later in-place status change would show in both lists. No modelled operation changes a favourited book afterwards, and `Library.Invariant` shows the copies still equal library entries.
- Request fields other than strings are not modelled. An absent title or an explicit null title is `None`. A candidate field that holds an explicit null is not modelled.
- The `book_id` is an integer. A request that sends the id as a string would match no book in the source; this is not modelled.
