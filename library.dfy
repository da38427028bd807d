/**
 * The in-memory library logic of models/user_model.py, on values: each
 * operation maps the current collections (and its inputs) to the reply it
 * returns and the collections it leaves behind. The class in user_model.dfy
 * runs the same operations in place and is proved equal to these functions.
 *
 * A reply is the `(body, status code)` pair the handlers return; the message
 * strings are not modelled, only the code and the structured part of the body.
 */
module Library {
  import opened Wrappers
  import opened BookModel
  import Text

  // ---------------------------------------------------------------------------
  // Replies

  /** A dict keyed by status that keeps first-insertion order of its keys. */
  datatype StatusGroups = StatusGroups(keys: seq<string>, groups: map<string, seq<Dict>>)

  datatype Payload =
    | Message                                               // {"message": ...}
    | BookBody(book: Dict)                                  // {"message": ..., "book": ...}
    | CandidateList(books: seq<Dict>)                       // {"message": ..., "books": [...]}
    | LibraryBody(grouped: StatusGroups, favorites: seq<Dict>) // {"books": ..., "favorites": ...}
    | ReviewBody(review: string)                            // {"message": ..., "review": ...}

  /** What a handler does: return (payload, code), or raise a Python exception. */
  datatype Reply = Reply(code: int, payload: Payload) | Raised(exception: string)

  function Dicts(books: seq<Book>): (ds: seq<Dict>)
    ensures |ds| == |books|
    ensures forall i :: 0 <= i < |books| ==> ds[i] == ToDict(books[i])
  {
    seq(|books|, i requires 0 <= i < |books| => ToDict(books[i]))
  }

  lemma DictsAppend(books: seq<Book>, b: Book)
    ensures Dicts(books + [b]) == Dicts(books) + [ToDict(b)]
  {
  }

  /** Ids 1..n in library order: what a library built by AddBook alone looks like. */
  predicate IdsSequential(lib: seq<Book>)
  {
    forall i :: 0 <= i < |lib| ==> lib[i].id == i + 1
  }

  /** The index of the first book with the given id (the `for ... break` searches). */
  function FirstWithId(books: seq<Book>, id: int): (k: Option<nat>)
    ensures k.Some? ==> k.value < |books| && books[k.value].id == id
    ensures k.Some? ==> forall j :: 0 <= j < k.value ==> books[j].id != id
    ensures k.None? <==> forall j :: 0 <= j < |books| ==> books[j].id != id
  {
    if books == [] then None
    else if books[0].id == id then Some(0)
    else match FirstWithId(books[1..], id)
      case None => None
      case Some(k) => Some(k + 1)
  }

  predicate HasId(books: seq<Book>, id: int)
  {
    exists j :: 0 <= j < |books| && books[j].id == id
  }

  // ---------------------------------------------------------------------------
  // get_library

  /** The distinct statuses of `lib`, in order of first occurrence. */
  function StatusKeys(lib: seq<Book>): (ks: seq<string>)
    ensures |ks| <= |lib|
    ensures lib != [] ==> ks != []
  {
    if lib == [] then []
    else
      var ks := StatusKeys(lib[..|lib| - 1]);
      var s := lib[|lib| - 1].status;
      if s in ks then ks else ks + [s]
  }

  /** The books of `lib` whose status is `s`, in library order. */
  function WithStatus(lib: seq<Book>, s: string): (group: seq<Book>)
    ensures |group| <= |lib|
  {
    if lib == [] then []
    else
      var rest := WithStatus(lib[..|lib| - 1], s);
      if lib[|lib| - 1].status == s then rest + [lib[|lib| - 1]] else rest
  }

  lemma WithStatusAppend(lib: seq<Book>, b: Book, s: string)
    ensures WithStatus(lib + [b], s) == if b.status == s then WithStatus(lib, s) + [b] else WithStatus(lib, s)
  {
    assert (lib + [b])[..|lib|] == lib;
  }

  /** A status that is not yet a key has an empty group. */
  lemma WithStatusAbsentKey(lib: seq<Book>, s: string)
    requires s !in StatusKeys(lib)
    ensures WithStatus(lib, s) == []
  {
    StatusKeysMembership(lib, s);
    WithStatusAbsent(lib, s);
  }

  /** The loop state of get_library after the books of `lib`: keys in order, groups by key. */
  ghost predicate GroupedSoFar(lib: seq<Book>, keys: seq<string>, groups: map<string, seq<Dict>>)
  {
    && keys == StatusKeys(lib)
    && (forall k :: k in groups <==> k in keys)
    && (forall k :: k in groups ==> groups[k] == Dicts(WithStatus(lib, k)))
  }

  /** One iteration of the get_library loop (lines 172-174) keeps GroupedSoFar. */
  lemma GroupStep(lib: seq<Book>, b: Book, keys: seq<string>, groups: map<string, seq<Dict>>)
    requires GroupedSoFar(lib, keys, groups)
    ensures
      var keys' := if b.status !in groups then keys + [b.status] else keys;
      var groups0 := if b.status !in groups then groups[b.status := []] else groups;
      GroupedSoFar(lib + [b], keys', groups0[b.status := groups0[b.status] + [ToDict(b)]])
  {
    StatusKeysAppend(lib, b);
    var s := b.status;
    var keys' := if s !in groups then keys + [s] else keys;
    var groups0 := if s !in groups then groups[s := []] else groups;
    var groups' := groups0[s := groups0[s] + [ToDict(b)]];
    forall k | k in groups'
      ensures groups'[k] == Dicts(WithStatus(lib + [b], k))
    {
      WithStatusAppend(lib, b, k);
      if k == s {
        if s !in groups {
          WithStatusAbsentKey(lib, s);
        }
        DictsAppend(WithStatus(lib, s), b);
      }
    }
  }

  /** A key order and a map that agree with the grouping pointwise are the grouping. */
  lemma GroupsAre(lib: seq<Book>, keys: seq<string>, groups: map<string, seq<Dict>>)
    requires GroupedSoFar(lib, keys, groups)
    ensures StatusGroups(keys, groups) == GroupByStatus(lib)
  {
  }

  lemma StatusKeysAppend(lib: seq<Book>, b: Book)
    ensures StatusKeys(lib + [b]) == if b.status in StatusKeys(lib) then StatusKeys(lib) else StatusKeys(lib) + [b.status]
  {
    assert (lib + [b])[..|lib|] == lib;
  }

  function GroupByStatus(lib: seq<Book>): StatusGroups
  {
    var ks := StatusKeys(lib);
    StatusGroups(ks, map k | k in ks :: Dicts(WithStatus(lib, k)))
  }

  /** get_library: always 200, the library grouped by status and the favourites in order. */
  function GetLibrary(lib: seq<Book>, favorites: seq<Book>): (r: Reply)
    ensures r.Reply? && r.code == 200 && r.payload.LibraryBody?
    ensures r.payload.grouped.keys == StatusKeys(lib)
    ensures forall k :: k in r.payload.grouped.groups <==> k in StatusKeys(lib)
    ensures forall k :: k in r.payload.grouped.groups ==> r.payload.grouped.groups[k] == Dicts(WithStatus(lib, k))
    ensures |r.payload.favorites| == |favorites|
    ensures forall i :: 0 <= i < |favorites| ==> r.payload.favorites[i] == ToDict(favorites[i])
  {
    Reply(200, LibraryBody(GroupByStatus(lib), Dicts(favorites)))
  }

  lemma GetLibraryEmpty()
    ensures GetLibrary([], []) == Reply(200, LibraryBody(StatusGroups([], map[]), []))
  {
  }

  /** A status is a group key exactly when some library book has it. */
  lemma {:induction false} StatusKeysMembership(lib: seq<Book>, k: string)
    ensures k in StatusKeys(lib) <==> exists i :: 0 <= i < |lib| && lib[i].status == k
  {
    if lib != [] {
      var init := lib[..|lib| - 1];
      StatusKeysMembership(init, k);
      assert forall i :: 0 <= i < |init| ==> init[i] == lib[i];
      if k in StatusKeys(lib) && k !in StatusKeys(init) {
        assert lib[|lib| - 1].status == k;
      }
    }
  }

  /** No status is a key twice. */
  lemma {:induction false} StatusKeysDistinct(lib: seq<Book>)
    ensures forall a, b :: 0 <= a < b < |StatusKeys(lib)| ==> StatusKeys(lib)[a] != StatusKeys(lib)[b]
  {
    if lib != [] {
      StatusKeysDistinct(lib[..|lib| - 1]);
    }
  }

  /** The index of the first book with status `s`, or |lib| when none has it. */
  function FirstOccurrence(lib: seq<Book>, s: string): (k: nat)
    ensures k <= |lib|
    ensures k < |lib| ==> lib[k].status == s
    ensures forall j :: 0 <= j < k ==> lib[j].status != s
  {
    if lib == [] then 0
    else if lib[0].status == s then 0
    else 1 + FirstOccurrence(lib[1..], s)
  }

  lemma FirstOccurrenceIs(lib: seq<Book>, s: string, k: nat)
    requires k <= |lib| && (k < |lib| ==> lib[k].status == s)
    requires forall j :: 0 <= j < k ==> lib[j].status != s
    ensures FirstOccurrence(lib, s) == k
  {
  }

  /** Group keys come in the order in which their first books appear in the library. */
  lemma {:induction false} StatusKeysFirstOccurrenceOrder(lib: seq<Book>)
    ensures forall a, b :: 0 <= a < b < |StatusKeys(lib)| ==>
      FirstOccurrence(lib, StatusKeys(lib)[a]) < FirstOccurrence(lib, StatusKeys(lib)[b])
  {
    if lib != [] {
      var init := lib[..|lib| - 1];
      var x := lib[|lib| - 1];
      var ks := StatusKeys(init);
      StatusKeysFirstOccurrenceOrder(init);
      assert forall i :: 0 <= i < |init| ==> init[i] == lib[i];
      forall k | k in ks
        ensures FirstOccurrence(lib, k) == FirstOccurrence(init, k) < |init|
      {
        StatusKeysMembership(init, k);
        FirstOccurrenceIs(lib, k, FirstOccurrence(init, k));
      }
      if x.status !in ks {
        StatusKeysMembership(init, x.status);
        FirstOccurrenceIs(lib, x.status, |init|);
      }
    }
  }

  /** Every book of a group has the group's status; every book with that status is in it. */
  lemma {:induction false} WithStatusMembers(lib: seq<Book>, s: string)
    ensures forall b :: b in WithStatus(lib, s) ==> b in lib && b.status == s
    ensures forall i :: 0 <= i < |lib| && lib[i].status == s ==> lib[i] in WithStatus(lib, s)
  {
    if lib != [] {
      var init := lib[..|lib| - 1];
      WithStatusMembers(init, s);
      assert forall i :: 0 <= i < |init| ==> init[i] == lib[i];
    }
  }

  /** The sum of the sizes of the groups keyed by `ks`. */
  function GroupSizes(lib: seq<Book>, ks: seq<string>): nat
  {
    if ks == [] then 0 else GroupSizes(lib, ks[..|ks| - 1]) + |WithStatus(lib, ks[|ks| - 1])|
  }

  /** How often `s` occurs in `ks`. */
  function Occurrences(ks: seq<string>, s: string): nat
  {
    if ks == [] then 0 else Occurrences(ks[..|ks| - 1], s) + (if ks[|ks| - 1] == s then 1 else 0)
  }

  lemma {:induction false} GroupSizesAppendBook(lib: seq<Book>, x: Book, ks: seq<string>)
    ensures GroupSizes(lib + [x], ks) == GroupSizes(lib, ks) + Occurrences(ks, x.status)
  {
    if ks != [] {
      GroupSizesAppendBook(lib, x, ks[..|ks| - 1]);
      assert (lib + [x])[..|lib + [x]| - 1] == lib;
    }
  }

  lemma {:induction false} OccurrencesDistinct(ks: seq<string>, s: string)
    requires forall a, b :: 0 <= a < b < |ks| ==> ks[a] != ks[b]
    ensures Occurrences(ks, s) == if s in ks then 1 else 0
  {
    if ks != [] {
      var init := ks[..|ks| - 1];
      OccurrencesDistinct(init, s);
      assert s in ks <==> s in init || ks[|ks| - 1] == s;
    }
  }

  lemma {:induction false} WithStatusAbsent(lib: seq<Book>, s: string)
    requires forall i :: 0 <= i < |lib| ==> lib[i].status != s
    ensures WithStatus(lib, s) == []
  {
    if lib != [] {
      WithStatusAbsent(lib[..|lib| - 1], s);
    }
  }

  /** The groups together hold exactly as many books as the library. */
  lemma {:induction false} GroupSizesSum(lib: seq<Book>)
    ensures GroupSizes(lib, StatusKeys(lib)) == |lib|
  {
    if lib != [] {
      var init := lib[..|lib| - 1];
      var x := lib[|lib| - 1];
      var ks := StatusKeys(init);
      assert lib == init + [x];
      GroupSizesSum(init);
      StatusKeysDistinct(init);
      GroupSizesAppendBook(init, x, ks);
      OccurrencesDistinct(ks, x.status);
      if x.status !in ks {
        StatusKeysMembership(init, x.status);
        WithStatusAbsent(init, x.status);
        assert (ks + [x.status])[..|ks|] == ks;
        assert WithStatus(lib, x.status) == [x];
      }
    }
  }

  // ---------------------------------------------------------------------------
  // add_book_personal_library

  /** One record of the bibliographic search: each field may be absent. */
  datatype Candidate = Candidate(title: Option<string>, authorName: Option<seq<string>>, isbn: Option<seq<string>>)

  /** The outcome of the search request: a request error, or the `docs` list. */
  datatype Fetch = FetchFailed | Fetched(docs: seq<Candidate>)

  /** The request body: `title` may be absent; `author` is Some when the key is present. */
  datatype AddBookRequest = AddBookRequest(title: Option<string>, author: Option<string>)

  /** `author_name` is not an empty list (indexing it with [0] would raise IndexError). */
  predicate Indexable(c: Candidate)
  {
    c.authorName != Some([])
  }

  predicate WellFormed(f: Fetch)
  {
    f.Fetched? ==> forall i :: 0 <= i < |f.docs| ==> Indexable(f.docs[i])
  }

  /** `book.get("title", "Unknown")`. */
  function CandidateTitle(c: Candidate): (title: string)
    ensures c.title.Some? ==> title == c.title.value
    ensures c.title.None? ==> title == "Unknown"
  {
    c.title.GetOr(Unknown)
  }

  /** `book.get("author_name", ["Unknown"])[0]`. */
  function CandidateAuthor(c: Candidate): (author: string)
    requires Indexable(c)
    ensures c.authorName.Some? ==> author == c.authorName.value[0]
    ensures c.authorName.None? ==> author == "Unknown"
  {
    c.authorName.GetOr([Unknown])[0]
  }

  /** `book.get("isbn", [None])[0] if book.get("isbn") else None`. */
  function CandidateIsbn(c: Candidate): (isbn: Option<string>)
    ensures isbn.Some? <==> c.isbn.Some? && c.isbn.value != []
    ensures isbn.Some? ==> isbn.value == c.isbn.value[0]
  {
    if c.isbn.Some? && c.isbn.value != [] then Some(c.isbn.value[0]) else None
  }

  /**
   * The duplicate test: title and author equal, ignoring case. Which side is
   * lower-cased first does not matter, and an exact match is always a duplicate.
   */
  function SameBook(existing: Book, c: Candidate): (same: bool)
    requires Indexable(c)
    ensures same <==> Text.EqualIgnoringCase(CandidateTitle(c), existing.title)
                      && Text.EqualIgnoringCase(CandidateAuthor(c), existing.author)
    ensures existing.title == CandidateTitle(c) && existing.author == CandidateAuthor(c) ==> same
    ensures same ==> |existing.title| == |CandidateTitle(c)| && |existing.author| == |CandidateAuthor(c)|
  {
    Text.EqualIgnoringCase(existing.title, CandidateTitle(c))
    && Text.EqualIgnoringCase(existing.author, CandidateAuthor(c))
  }

  /** The index of the first library book that duplicates the candidate. */
  function FirstDuplicate(lib: seq<Book>, c: Candidate): (k: Option<nat>)
    requires Indexable(c)
    ensures k.Some? ==> k.value < |lib| && SameBook(lib[k.value], c)
    ensures k.Some? ==> forall j :: 0 <= j < k.value ==> !SameBook(lib[j], c)
    ensures k.None? <==> forall j :: 0 <= j < |lib| ==> !SameBook(lib[j], c)
  {
    if lib == [] then None
    else if SameBook(lib[0], c) then Some(0)
    else match FirstDuplicate(lib[1..], c)
      case None => None
      case Some(k) => Some(k + 1)
  }

  /** The entry of the 300 reply for one candidate. */
  function Listing(c: Candidate): (d: Dict)
    requires Indexable(c)
    ensures d.Keys == {"id", "title", "author", "isbn"} && d["id"] == Null
    ensures d["title"] == Str(CandidateTitle(c)) && d["author"] == Str(CandidateAuthor(c))
    ensures d["isbn"] == OptionalString(CandidateIsbn(c))
  {
    map["id" := Null, "title" := Str(CandidateTitle(c)), "author" := Str(CandidateAuthor(c)),
        "isbn" := OptionalString(CandidateIsbn(c))]
  }

  function Listings(docs: seq<Candidate>): (ds: seq<Dict>)
    requires forall i :: 0 <= i < |docs| ==> Indexable(docs[i])
    ensures |ds| == |docs|
    ensures forall i :: 0 <= i < |docs| ==> ds[i] == Listing(docs[i])
  {
    seq(|docs|, i requires 0 <= i < |docs| => Listing(docs[i]))
  }

  /**
   * The book a committed candidate becomes: the next id, status "Want to Read",
   * and the candidate's title, first author and first isbn with their defaults.
   * In a library with ids 1..n the new id is not taken.
   */
  function NewLibraryBook(lib: seq<Book>, c: Candidate): (b: Book)
    requires Indexable(c)
    ensures b.id == |lib| + 1 && b.status == "Want to Read"
    ensures b.title == CandidateTitle(c) && b.author == CandidateAuthor(c)
    ensures b.isbn == CandidateIsbn(c)
    ensures IdsSequential(lib) ==> forall i :: 0 <= i < |lib| ==> lib[i].id != b.id
  {
    Book(|lib| + 1, CandidateTitle(c), CandidateAuthor(c), CandidateIsbn(c), WantToRead)
  }

  /** The commit path: decline a duplicate, otherwise append one new book. */
  function Commit(lib: seq<Book>, c: Candidate): (out: (Reply, seq<Book>))
    requires Indexable(c)
    ensures out.0.Reply? && (out.0.code == 400 || out.0.code == 200)
    ensures out.0.code == 400 <==> exists i :: 0 <= i < |lib| && SameBook(lib[i], c)
    ensures out.0.code == 400 ==>
      out.1 == lib &&
      exists i :: 0 <= i < |lib| && SameBook(lib[i], c) && out.0.payload == BookBody(ToDict(lib[i]))
                  && forall j :: 0 <= j < i ==> !SameBook(lib[j], c)
    ensures out.0.code == 200 ==>
      |out.1| == |lib| + 1 && out.1[..|lib|] == lib &&
      out.1[|lib|].id == |lib| + 1 && out.1[|lib|].status == "Want to Read" &&
      out.1[|lib|].title == CandidateTitle(c) && out.1[|lib|].author == CandidateAuthor(c) &&
      out.1[|lib|].isbn == CandidateIsbn(c) &&
      out.0.payload == BookBody(ToDict(out.1[|lib|]))
  {
    match FirstDuplicate(lib, c)
    case Some(i) => (Reply(400, BookBody(ToDict(lib[i]))), lib)
    case None =>
      var b := NewLibraryBook(lib, c);
      (Reply(200, BookBody(ToDict(b))), lib + [b])
  }

  /** `if not book_data.get("title")`: a missing title and an empty one are both falsy. */
  function TitleGiven(request: AddBookRequest): (given: bool)
    ensures request.title.None? ==> !given
    ensures request.title == Some("") ==> !given
    ensures request.title.Some? && |request.title.value| > 0 ==> given
  {
    request.title.Some? && request.title.value != ""
  }

  /**
   * `len(books) == 1 or "author" in book_data`: a single candidate or an author
   * key commits; disambiguation is asked for only with two or more candidates.
   */
  function Commits(request: AddBookRequest, docs: seq<Candidate>): (commit: bool)
    ensures request.author.Some? ==> commit
    ensures |docs| == 1 ==> commit
    ensures !commit && docs != [] ==> |docs| >= 2 && request.author.None?
  {
    |docs| == 1 || request.author.Some?
  }

  /** add_book_personal_library, with the search outcome as an input. */
  function AddBook(lib: seq<Book>, request: AddBookRequest, fetch: Fetch): (out: (Reply, seq<Book>))
    requires WellFormed(fetch)
    ensures out.0.Reply?
    ensures !TitleGiven(request) ==> out == (Reply(400, Message), lib)
    ensures TitleGiven(request) && fetch.FetchFailed? ==> out == (Reply(500, Message), lib)
    ensures TitleGiven(request) && fetch == Fetched([]) ==> out == (Reply(404, Message), lib)
    ensures TitleGiven(request) && fetch.Fetched? && |fetch.docs| > 1 && request.author.None? ==>
      out.1 == lib && out.0.code == 300 && out.0.payload.CandidateList? &&
      |out.0.payload.books| == |fetch.docs| &&
      forall i :: 0 <= i < |fetch.docs| ==>
        out.0.payload.books[i] == Listing(fetch.docs[i]) && out.0.payload.books[i]["id"] == Null
    ensures TitleGiven(request) && fetch.Fetched? && fetch.docs != [] && Commits(request, fetch.docs) ==>
      out == Commit(lib, fetch.docs[0])
    // the library changes only on success, and then by one book at the end
    ensures out.1 == lib || (out.0.code == 200 && |out.1| == |lib| + 1 && out.1[..|lib|] == lib)
  {
    if !TitleGiven(request) then (Reply(400, Message), lib)
    else if fetch.FetchFailed? then (Reply(500, Message), lib)
    else if fetch.docs == [] then (Reply(404, Message), lib)
    else if Commits(request, fetch.docs) then Commit(lib, fetch.docs[0])
    else (Reply(300, CandidateList(Listings(fetch.docs))), lib)
  }

  /** Only the first candidate matters once the handler commits. */
  lemma OnlyFirstCandidateUsed(lib: seq<Book>, request: AddBookRequest, f: Fetch, g: Fetch)
    requires WellFormed(f) && WellFormed(g) && TitleGiven(request)
    requires f.Fetched? && g.Fetched? && f.docs != [] && g.docs != [] && f.docs[0] == g.docs[0]
    requires Commits(request, f.docs) && Commits(request, g.docs)
    ensures AddBook(lib, request, f) == AddBook(lib, request, g)
  {
  }

  /** An author key means the handler never asks for disambiguation. */
  lemma AuthorSuppliedNeverAmbiguous(lib: seq<Book>, request: AddBookRequest, fetch: Fetch)
    requires WellFormed(fetch) && request.author.Some?
    ensures AddBook(lib, request, fetch).0.code != 300
  {
  }

  lemma AddBookKeepsIdsSequential(lib: seq<Book>, request: AddBookRequest, fetch: Fetch)
    requires WellFormed(fetch) && IdsSequential(lib)
    ensures IdsSequential(AddBook(lib, request, fetch).1)
  {
  }

  /** Adding the same search result again is declined as a duplicate of the book just added. */
  lemma ReAddIsDuplicate(lib: seq<Book>, request: AddBookRequest, fetch: Fetch)
    requires WellFormed(fetch) && AddBook(lib, request, fetch).0.code == 200
    ensures var lib' := AddBook(lib, request, fetch).1;
      |lib'| == |lib| + 1 && AddBook(lib', request, fetch) == (Reply(400, BookBody(ToDict(lib'[|lib|]))), lib')
  {
    var lib' := AddBook(lib, request, fetch).1;
    assert SameBook(lib'[|lib|], fetch.docs[0]);
  }

  /** A run of add_book_personal_library calls starting from `lib`. */
  function ReplayAddBook(lib: seq<Book>, calls: seq<(AddBookRequest, Fetch)>): seq<Book>
    requires forall i :: 0 <= i < |calls| ==> WellFormed(calls[i].1)
    decreases |calls|
  {
    if calls == [] then lib
    else ReplayAddBook(AddBook(lib, calls[0].0, calls[0].1).1, calls[1..])
  }

  /** A library built only by add_book_personal_library has ids 1..n in order. */
  lemma {:induction false} ReplayIdsSequential(lib: seq<Book>, calls: seq<(AddBookRequest, Fetch)>)
    requires forall i :: 0 <= i < |calls| ==> WellFormed(calls[i].1)
    requires IdsSequential(lib)
    ensures IdsSequential(ReplayAddBook(lib, calls))
    decreases |calls|
  {
    if calls != [] {
      AddBookKeepsIdsSequential(lib, calls[0].0, calls[0].1);
      ReplayIdsSequential(AddBook(lib, calls[0].0, calls[0].1).1, calls[1..]);
    }
  }

  // ---------------------------------------------------------------------------
  // add_book_favorite_books

  /** add_book_favorite_books: 404, then 400, else mark the book Read and append it. */
  function AddFavorite(lib: seq<Book>, favorites: seq<Book>, id: int): (out: (Reply, seq<Book>, seq<Book>))
    ensures !HasId(lib, id) ==> out == (Reply(404, Message), lib, favorites)
    ensures HasId(lib, id) && HasId(favorites, id) ==> out == (Reply(400, Message), lib, favorites)
    ensures HasId(lib, id) && !HasId(favorites, id) ==>
      var k := FirstWithId(lib, id).value;
      |out.1| == |lib| &&
      out.1[k] == lib[k].(status := "Read") &&
      (forall j :: 0 <= j < |lib| && j != k ==> out.1[j] == lib[j]) &&
      out.2 == favorites + [out.1[k]] &&
      out.0 == Reply(200, BookBody(ToDict(out.1[k])))
  {
    match FirstWithId(lib, id)
    case None => (Reply(404, Message), lib, favorites)
    case Some(k) =>
      if FirstWithId(favorites, id).Some? then (Reply(400, Message), lib, favorites)
      else
        var b := lib[k].(status := Read);
        (Reply(200, BookBody(ToDict(b))), lib[k := b], favorites + [b])
  }

  /** Favouriting twice: success, then 400 with nothing changed; the book stays Read. */
  lemma FavoriteTwiceRejected(lib: seq<Book>, favorites: seq<Book>, id: int)
    requires AddFavorite(lib, favorites, id).0.code == 200
    ensures var (_, lib', favorites') := AddFavorite(lib, favorites, id);
      AddFavorite(lib', favorites', id) == (Reply(400, Message), lib', favorites') &&
      lib'[FirstWithId(lib, id).value].status == "Read"
  {
    var (_, lib', favorites') := AddFavorite(lib, favorites, id);
    var k := FirstWithId(lib, id).value;
    assert lib'[k].id == id;
    assert favorites'[|favorites|].id == id;
  }

  // ---------------------------------------------------------------------------
  // add_review

  /**
   * add_review as written. The stored reviews are the review texts appended at
   * line 350. The duplicate loop rebinds `review` to a stored entry and reads its
   * `.id`, which a string does not have: with any stored review it raises.
   */
  function AddReview(lib: seq<Book>, reviews: seq<string>, review: Option<string>, bookId: int): (out: (Reply, seq<string>))
    ensures (review.None? || review == Some("")) ==> out == (Reply(400, Message), reviews)
    ensures review.Some? && review.value != "" && !HasId(lib, bookId) ==> out == (Reply(404, Message), reviews)
    ensures review.Some? && review.value != "" && HasId(lib, bookId) && reviews != [] ==>
      out == (Raised("AttributeError"), reviews)
    ensures review.Some? && review.value != "" && HasId(lib, bookId) && reviews == [] ==>
      out == (Reply(200, ReviewBody(review.value)), [review.value])
  {
    if review.None? || review.value == "" then (Reply(400, Message), reviews)
    else if FirstWithId(lib, bookId).None? then (Reply(404, Message), reviews)
    else if reviews != [] then (Raised("AttributeError"), reviews)
    else
      assert reviews + [review.value] == [review.value];
      (Reply(200, ReviewBody(review.value)), reviews + [review.value])
  }

  // ---------------------------------------------------------------------------
  // The three collections together, and what every operation preserves.

  datatype Shelves = Shelves(library: seq<Book>, favorites: seq<Book>, reviews: seq<string>)

  /**
   * Ids are 1..n; every favourite is a library entry with status Read (the
   * status favouriting forced); favourite ids are distinct; and, because of the
   * raising duplicate check, at most one review is ever stored.
   */
  ghost predicate Invariant(s: Shelves)
  {
    && IdsSequential(s.library)
    && (forall j :: 0 <= j < |s.favorites| ==> s.favorites[j].status == Read && s.favorites[j] in s.library)
    && (forall a, b :: 0 <= a < b < |s.favorites| ==> s.favorites[a].id != s.favorites[b].id)
    && |s.reviews| <= 1
  }

  datatype Operation =
    | GetLibraryOp
    | AddBookOp(request: AddBookRequest, fetch: Fetch)
    | AddFavoriteOp(bookId: int)
    | AddReviewOp(review: Option<string>, bookId: int)

  predicate Admissible(op: Operation)
  {
    op.AddBookOp? ==> WellFormed(op.fetch)
  }

  function Step(s: Shelves, op: Operation): (out: (Reply, Shelves))
    requires Admissible(op)
    ensures op.GetLibraryOp? ==> out.1 == s
    ensures op.AddBookOp? ==> out.1.favorites == s.favorites && out.1.reviews == s.reviews
    ensures op.AddFavoriteOp? ==> out.1.reviews == s.reviews
    ensures op.AddReviewOp? ==> out.1.library == s.library && out.1.favorites == s.favorites
  {
    match op
    case GetLibraryOp => (GetLibrary(s.library, s.favorites), s)
    case AddBookOp(request, fetch) =>
      var (r, lib) := AddBook(s.library, request, fetch);
      (r, s.(library := lib))
    case AddFavoriteOp(id) =>
      var (r, lib, favs) := AddFavorite(s.library, s.favorites, id);
      (r, s.(library := lib, favorites := favs))
    case AddReviewOp(review, id) =>
      var (r, revs) := AddReview(s.library, s.reviews, review, id);
      (r, s.(reviews := revs))
  }

  lemma StepPreservesInvariant(s: Shelves, op: Operation)
    requires Invariant(s) && Admissible(op)
    ensures Invariant(Step(s, op).1)
  {
  }

  /** Every state reachable from empty collections satisfies the invariant. */
  function Run(s: Shelves, ops: seq<Operation>): Shelves
    requires forall i :: 0 <= i < |ops| ==> Admissible(ops[i])
    decreases |ops|
  {
    if ops == [] then s else Run(Step(s, ops[0]).1, ops[1..])
  }

  lemma {:induction false} RunPreservesInvariant(s: Shelves, ops: seq<Operation>)
    requires forall i :: 0 <= i < |ops| ==> Admissible(ops[i])
    requires Invariant(s)
    ensures Invariant(Run(s, ops))
    decreases |ops|
  {
    if ops != [] {
      StepPreservesInvariant(s, ops[0]);
      RunPreservesInvariant(Step(s, ops[0]).1, ops[1..]);
    }
  }

  lemma ReachableStatesAreConsistent(ops: seq<Operation>)
    requires forall i :: 0 <= i < |ops| ==> Admissible(ops[i])
    ensures Invariant(Run(Shelves([], [], []), ops))
  {
    RunPreservesInvariant(Shelves([], [], []), ops);
  }
}
