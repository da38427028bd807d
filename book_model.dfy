/**
 * The Book record of models/book_model.py: a plain value with constructor
 * defaults, its dictionary form (`to_dict`) and its display form (`__str__`).
 */
module BookModel {
  import opened Wrappers
  import Text

  const Unknown: string := "Unknown"
  const WantToRead: string := "Want to Read"
  const Reading: string := "Reading"
  const Read: string := "Read"

  /** `Book(id, title, author="Unknown", isbn=None, status="Want to Read")`. */
  datatype Book = Book(
    id: int,
    title: string,
    author: string := Unknown,
    isbn: Option<string> := None,
    status: string := WantToRead)

  /** A JSON-like scalar, enough for the values a book dictionary holds. */
  datatype Value = Int(i: int) | Str(s: string) | Null

  type Dict = map<string, Value>

  /** An optional string as a dictionary value: `None` becomes null. */
  function OptionalString(o: Option<string>): (v: Value)
    ensures o.None? <==> v == Null
    ensures o.Some? ==> v == Str(o.value)
  {
    match o
    case None => Null
    case Some(s) => Str(s)
  }

  lemma ConstructorDefaults(id: int, title: string)
    ensures Book(id, title) == Book(id, title, Unknown, None, WantToRead)
    ensures Book(id, title).author == "Unknown"
    ensures Book(id, title).isbn == None
    ensures Book(id, title).status == "Want to Read"
  {
  }

  /** `to_dict`: the five fields under their own names. */
  function ToDict(b: Book): (d: Dict)
    ensures d.Keys == {"id", "title", "author", "isbn", "status"}
    ensures d["id"] == Int(b.id) && d["title"] == Str(b.title) && d["author"] == Str(b.author)
    ensures d["isbn"] == OptionalString(b.isbn) && d["status"] == Str(b.status)
  {
    map["id" := Int(b.id), "title" := Str(b.title), "author" := Str(b.author),
        "isbn" := OptionalString(b.isbn), "status" := Str(b.status)]
  }

  /** Reads a book back from its dictionary form; None when a key is missing or ill-typed. */
  function FromDict(d: Dict): (r: Option<Book>)
    ensures r.Some? ==> "id" in d && d["id"] == Int(r.value.id) && "status" in d && d["status"] == Str(r.value.status)
  {
    if "id" in d && d["id"].Int? && "title" in d && d["title"].Str? && "author" in d && d["author"].Str?
       && "isbn" in d && !d["isbn"].Int? && "status" in d && d["status"].Str?
    then
      var isbn := if d["isbn"].Str? then Some(d["isbn"].s) else None;
      Some(Book(d["id"].i, d["title"].s, d["author"].s, isbn, d["status"].s))
    else None
  }

  /** The dictionary form loses nothing: `to_dict` is injective. */
  lemma ToDictRoundTrip(b: Book)
    ensures FromDict(ToDict(b)) == Some(b)
  {
  }

  /** `__str__`: "'<title>' by <author> (<status>)". */
  function BookString(b: Book): (s: string)
    ensures |s| == |b.title| + |b.author| + |b.status| + 9
    ensures s[0] == '\'' && s[1 + |b.title|] == '\'' && s[|s| - 1] == ')'
    ensures s[1..1 + |b.title|] == b.title
    ensures s[1 + |b.title|..6 + |b.title|] == "' by "
    ensures s[6 + |b.title|..6 + |b.title| + |b.author|] == b.author
    ensures s[6 + |b.title| + |b.author|..] == " (" + b.status + ")"
  {
    "'" + b.title + "' by " + b.author + " (" + b.status + ")"
  }

  /** The text between the opening quote and the next quote. */
  function TitleOf(s: string): string
  {
    if |s| > 0 && s[0] == '\'' then s[1..Text.FindFrom(s, '\'', 1)] else ""
  }

  /** A title without a quote character can be read back from the display form. */
  lemma TitleRecoverable(b: Book)
    requires forall i :: 0 <= i < |b.title| ==> b.title[i] != '\''
    ensures TitleOf(BookString(b)) == b.title
  {
  }
}
