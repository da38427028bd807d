/**
 * The stateful side of models/user_model.py.
 *
 * `User` holds the per-instance account fields and the salted-hash password
 * logic. `SharedCollections` holds the three lists that the source declares at
 * class scope, so that every `User` shares one `personal_library`, one
 * `favorite_books` and one `reviews`; the module-level handlers take that
 * shared state and change it in place. Each handler is proved to do exactly what
 * the matching function of module Library computes.
 */
module UserModel {
  import opened Wrappers
  import opened BookModel
  import opened Library
  import Text

  /** A SHA-512 hexdigest: always 128 lower-case hexadecimal characters. */
  type HexDigest = s: string | |s| == 128 && forall i :: 0 <= i < |s| ==> Text.IsHexDigit(s[i])
    witness seq(128, _ => '0')

  class User {
    var id: Option<int>
    var username: Option<string>
    var salt: Option<string>
    var passwordHash: Option<string>

    constructor (id: Option<int> := None, username: Option<string> := None)
      ensures this.id == id && this.username == username
      ensures salt == None && passwordHash == None
      ensures forall password, sha512 :: !CheckPassword(password, sha512)
    {
      this.id := id;
      this.username := username;
      salt := None;
      passwordHash := None;
    }

    /**
     * set_password: the salt is the hex form of 64 random bytes (passed in as
     * `entropy`), the stored hash is the digest of password followed by salt.
     */
    method SetPassword(password: string, entropy: seq<Text.byte>, sha512: string -> HexDigest)
      requires |entropy| == 64
      modifies this`salt, this`passwordHash
      ensures salt == Some(Text.HexEncode(entropy))
      ensures passwordHash == Some(sha512(password + Text.HexEncode(entropy)))
      ensures CheckPassword(password, sha512)
    {
      salt := Some(Text.HexEncode(entropy));
      passwordHash := Some(sha512(password + salt.value));
    }

    /** check_password: false without a salt or a hash, else compare the recomputed digest. */
    function CheckPassword(password: string, sha512: string -> HexDigest): (ok: bool)
      reads this
      ensures salt.None? || salt == Some("") || passwordHash.None? || passwordHash == Some("") ==> !ok
      ensures ok <==> salt.Some? && salt.value != "" && passwordHash == Some(sha512(password + salt.value))
    {
      if salt.None? || salt.value == "" || passwordHash.None? || passwordHash.value == "" then false
      else passwordHash.value == sha512(password + salt.value)
    }
  }

  /** The salt set_password stores is 128 lower-case hex characters that decode back to the random bytes. */
  lemma SaltDecodesToEntropy(entropy: seq<Text.byte>)
    requires |entropy| == 64
    ensures |Text.HexEncode(entropy)| == 128
    ensures Text.HexDecode(Text.HexEncode(entropy)) == Some(entropy)
  {
    Text.HexRoundTrip(entropy);
  }

  /** The search loop `for book in books: if book.id == book_id: ... break`. */
  method IndexOfId(books: seq<Book>, id: int) returns (k: Option<nat>)
    ensures k == FirstWithId(books, id)
  {
    var i := 0;
    while i < |books|
      invariant 0 <= i <= |books|
      invariant forall j :: 0 <= j < i ==> books[j].id != id
    {
      if books[i].id == id {
        return Some(i);
      }
      i := i + 1;
    }
    return None;
  }

  class SharedCollections {
    var personalLibrary: seq<Book>
    var favoriteBooks: seq<Book>
    var reviews: seq<string>

    /** The three class-level lists start empty. */
    constructor ()
      ensures personalLibrary == [] && favoriteBooks == [] && reviews == []
      ensures Invariant(Model())
    {
      personalLibrary := [];
      favoriteBooks := [];
      reviews := [];
    }

    ghost function Model(): Shelves
      reads this
    {
      Shelves(personalLibrary, favoriteBooks, reviews)
    }

    /** get_library: group the library by status with a loop, list the favourites. */
    method GetLibrary() returns (r: Reply)
      ensures r == Library.GetLibrary(personalLibrary, favoriteBooks)
    {
      var library := personalLibrary;
      var keys: seq<string> := [];
      var groups: map<string, seq<Dict>> := map[];
      var i := 0;
      while i < |library|
        invariant 0 <= i <= |library|
        invariant GroupedSoFar(library[..i], keys, groups)
      {
        var book := library[i];
        ghost var keys0, groups0 := keys, groups;
        if book.status !in groups {
          keys := keys + [book.status];
          groups := groups[book.status := []];
        }
        groups := groups[book.status := groups[book.status] + [ToDict(book)]];
        GroupStep(library[..i], book, keys0, groups0);
        assert library[..i + 1] == library[..i] + [book];
        i := i + 1;
      }
      assert library[..i] == library;
      GroupsAre(library, keys, groups);
      r := Reply(200, LibraryBody(StatusGroups(keys, groups), Dicts(favoriteBooks)));
    }

    /** add_book_personal_library, with the search outcome `fetch` as an input. */
    method AddBookPersonalLibrary(request: AddBookRequest, fetch: Fetch) returns (r: Reply)
      requires WellFormed(fetch)
      modifies this`personalLibrary
      ensures (r, personalLibrary) == AddBook(old(personalLibrary), request, fetch)
      ensures favoriteBooks == old(favoriteBooks) && reviews == old(reviews)
      ensures Invariant(old(Model())) ==> Invariant(Model())
    {
      ghost var s0 := Model();
      if Invariant(s0) {
        StepPreservesInvariant(s0, AddBookOp(request, fetch));
      }
      if request.title.None? || request.title.value == "" {
        return Reply(400, Message);
      }
      if fetch.FetchFailed? {
        return Reply(500, Message);
      }
      var books := fetch.docs;
      if books == [] {
        return Reply(404, Message);
      }
      if |books| == 1 || request.author.Some? {
        var book := books[0];
        var i := 0;
        while i < |personalLibrary|
          invariant 0 <= i <= |personalLibrary|
          invariant forall j :: 0 <= j < i ==> !SameBook(personalLibrary[j], book)
        {
          var existing := personalLibrary[i];
          if Text.Lower(existing.title) == Text.Lower(CandidateTitle(book))
             && Text.Lower(existing.author) == Text.Lower(CandidateAuthor(book))
          {
            return Reply(400, BookBody(ToDict(existing)));
          }
          i := i + 1;
        }
        var newBook := Book(|personalLibrary| + 1, CandidateTitle(book), CandidateAuthor(book),
                            CandidateIsbn(book), WantToRead);
        personalLibrary := personalLibrary + [newBook];
        return Reply(200, BookBody(ToDict(newBook)));
      }
      r := Reply(300, CandidateList(Listings(books)));
    }

    /** add_book_favorite_books: find the book, reject a repeat, mark it Read and append it. */
    method AddBookFavoriteBooks(bookId: int) returns (r: Reply)
      modifies this`personalLibrary, this`favoriteBooks
      ensures (r, personalLibrary, favoriteBooks) == AddFavorite(old(personalLibrary), old(favoriteBooks), bookId)
      ensures reviews == old(reviews)
      ensures Invariant(old(Model())) ==> Invariant(Model())
    {
      ghost var s0 := Model();
      if Invariant(s0) {
        StepPreservesInvariant(s0, AddFavoriteOp(bookId));
      }
      var toFavorite := IndexOfId(personalLibrary, bookId);
      if toFavorite.None? {
        return Reply(404, Message);
      }
      var already := IndexOfId(favoriteBooks, bookId);
      if already.Some? {
        return Reply(400, Message);
      }
      var k := toFavorite.value;
      personalLibrary := personalLibrary[k := personalLibrary[k].(status := Read)];
      favoriteBooks := favoriteBooks + [personalLibrary[k]];
      r := Reply(200, BookBody(ToDict(personalLibrary[k])));
    }

    /** add_review as written: the guards, then the duplicate loop that raises on a stored string. */
    method AddReview(review: Option<string>, bookId: int) returns (r: Reply)
      modifies this`reviews
      ensures (r, reviews) == Library.AddReview(personalLibrary, old(reviews), review, bookId)
      ensures personalLibrary == old(personalLibrary) && favoriteBooks == old(favoriteBooks)
      ensures Invariant(old(Model())) ==> Invariant(Model())
    {
      ghost var s0 := Model();
      if Invariant(s0) {
        StepPreservesInvariant(s0, AddReviewOp(review, bookId));
      }
      if review.None? || review.value == "" {
        return Reply(400, Message);
      }
      var toReview := IndexOfId(personalLibrary, bookId);
      if toReview.None? {
        return Reply(404, Message);
      }
      if reviews != [] {
        // the first iteration evaluates `reviews[0].id` on a str
        return Raised("AttributeError");
      }
      reviews := reviews + [review.value];
      r := Reply(200, ReviewBody(review.value));
    }
  }
}
