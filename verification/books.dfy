/** The catalog's data: book records, the catalog state (the ordered list of
    books plus the id counter), the two error outcomes, and the searches the
    request handlers share. */
module Books {
  import Text

  datatype Option<T> = None | Some(value: T) {
    /** The value, or `default` when absent. */
    function GetOr(default: T): T {
      match this
      case Some(v) => v
      case None => default
    }
  }

  /** A book record; `publishedYear` is None when the creating request did
      not carry one. */
  datatype Book = Book(id: int, title: string, author: string, publishedYear: Option<int>)

  /** The service state: the books in insertion order and the next id to hand out. */
  datatype Catalog = Catalog(books: seq<Book>, nextId: int)

  /** The state at process start: no books, and the first id will be 1. */
  const Initial: Catalog := Catalog([], 1)

  /** The two ways a request can fail: 400 and 404 in HTTP terms. */
  datatype Error = ValidationError | NotFound

  datatype Result<T> = Ok(value: T) | Err(error: Error)

  /** The human-readable message sent with each error. */
  function Message(e: Error): string {
    match e
    case ValidationError => "Title and author are required"
    case NotFound => "Book not found"
  }

  /** The fields of a create or update request body; None when absent. */
  datatype Fields = Fields(title: Option<string>, author: Option<string>, publishedYear: Option<int>)

  /** JavaScript truthiness of a string field: present and non-empty. */
  predicate TruthyText(s: Option<string>) {
    s.Some? && s.value != ""
  }

  /** JavaScript truthiness of a numeric field: present and not zero. */
  predicate TruthyYear(y: Option<int>) {
    y.Some? && y.value != 0
  }

  // ---------------------------------------------------------------------------
  // The catalog invariant

  /** Ids grow strictly along the catalog order; hence no id occurs twice. */
  predicate IdsIncreasing(books: seq<Book>) {
    forall i, j :: 0 <= i < j < |books| ==> books[i].id < books[j].id
  }

  /** Every id lies in [1, bound). */
  predicate IdsInRange(books: seq<Book>, bound: int) {
    forall i :: 0 <= i < |books| ==> 1 <= books[i].id < bound
  }

  /** The invariant every reachable state keeps: ids are positive, strictly
      increasing in catalog order, and all below the counter. */
  predicate Valid(c: Catalog) {
    && 1 <= c.nextId
    && IdsIncreasing(c.books)
    && IdsInRange(c.books, c.nextId)
  }

  lemma InitialValid()
    ensures Valid(Initial) && |Initial.books| == 0
  {
  }

  /** Under the invariant two positions holding the same id are one position. */
  lemma IdsUnique(books: seq<Book>, i: int, j: int)
    requires IdsIncreasing(books)
    requires 0 <= i < |books| && 0 <= j < |books|
    requires books[i].id == books[j].id
    ensures i == j
  {
  }

  // ---------------------------------------------------------------------------
  // Lookup by id

  predicate HasId(books: seq<Book>, id: int) {
    exists i :: 0 <= i < |books| && books[i].id == id
  }

  /** The id search behind lookup, update and delete: the first position
      holding `id`, or None when no book has it. */
  function FindIndex(books: seq<Book>, id: int): (r: Option<nat>)
    ensures r.None? <==> !HasId(books, id)
    ensures r.Some? ==> r.value < |books| && books[r.value].id == id
    ensures r.Some? ==> forall j :: 0 <= j < r.value ==> books[j].id != id
  {
    if |books| == 0 then
      None
    else if books[0].id == id then
      Some(0)
    else
      match FindIndex(books[1..], id)
      case None =>
        assert forall i :: 0 < i < |books| ==> books[i] == books[1..][i - 1];
        None
      case Some(k) =>
        assert forall j :: 0 < j <= k ==> books[j] == books[1..][j - 1];
        Some(k + 1)
  }

  /** Under the invariant the position `FindIndex` returns is the only one
      holding that id. */
  lemma FindIndexUnique(books: seq<Book>, id: int, i: int)
    requires IdsIncreasing(books)
    requires 0 <= i < |books| && books[i].id == id
    ensures FindIndex(books, id) == Some(i)
  {
    var k := FindIndex(books, id).value;
    IdsUnique(books, i, k);
  }

  // ---------------------------------------------------------------------------
  // Author filter

  /** The list filter: the book's author contains the filter text, both
      lower-cased. */
  predicate MatchesAuthor(b: Book, filter: string) {
    Text.ContainsIgnoringCase(b.author, filter)
  }

  /** `a` is a subsequence of `s`: `s` with some elements dropped and the
      rest kept in order. */
  predicate IsSubsequence<T(==)>(a: seq<T>, s: seq<T>)
    decreases |s|
  {
    if |a| == 0 then true
    else if |s| == 0 then false
    else if a[0] == s[0] then IsSubsequence(a[1..], s[1..])
    else IsSubsequence(a, s[1..])
  }

  /** Every sequence is a subsequence of itself. */
  lemma {:induction false} SubsequenceOfItself<T>(s: seq<T>)
    ensures IsSubsequence(s, s)
    decreases |s|
  {
    if |s| > 0 {
      SubsequenceOfItself(s[1..]);
    }
  }

  /** The author filter of a list request: every matching book, each as
      often as it occurs in the catalog, kept in catalog order. */
  function FilterByAuthor(books: seq<Book>, filter: string): (r: seq<Book>)
    ensures forall b :: b in r <==> b in books && MatchesAuthor(b, filter)
    ensures forall b :: multiset(r)[b] == if MatchesAuthor(b, filter) then multiset(books)[b] else 0
    ensures IsSubsequence(r, books)
    ensures |r| <= |books|
  {
    if |books| == 0 then
      []
    else
      var rest := FilterByAuthor(books[1..], filter);
      assert books == [books[0]] + books[1..];
      assert multiset(books) == multiset{books[0]} + multiset(books[1..]);
      assert forall b :: b in books <==> b == books[0] || b in books[1..];
      if MatchesAuthor(books[0], filter) then
        assert ([books[0]] + rest)[1..] == rest;
        [books[0]] + rest
      else
        assert |rest| > 0 ==> rest[0] in rest;
        rest
  }

  /** A subsequence of a catalog whose ids increase has increasing ids too:
      filtering keeps catalog order. */
  lemma {:induction false} SubsequenceKeepsOrder(a: seq<Book>, s: seq<Book>)
    requires IsSubsequence(a, s)
    requires IdsIncreasing(s)
    ensures IdsIncreasing(a)
    ensures forall b :: b in a ==> b in s
    decreases |s|
  {
    if |a| == 0 {
    } else if a[0] == s[0] {
      SubsequenceKeepsOrder(a[1..], s[1..]);
      forall j | 0 < j < |a| ensures a[0].id < a[j].id {
        assert a[j] == a[1..][j - 1];
        assert a[j] in s[1..];
        var k :| 0 <= k < |s[1..]| && s[1..][k] == a[j];
        assert s[k + 1] == a[j];
      }
      forall b | b in a ensures b in s {
        if b != a[0] {
          assert b in a[1..];
        }
      }
    } else {
      SubsequenceKeepsOrder(a, s[1..]);
    }
  }

  // ---------------------------------------------------------------------------
  // Field merge used by update

  /** Overwrites each field of `b` whose value in `f` is truthy; the id never
      changes, and falsy or absent fields leave the old value. */
  function Merge(b: Book, f: Fields): (r: Book)
    ensures r.id == b.id
    ensures TruthyText(f.title) ==> r.title == f.title.value
    ensures !TruthyText(f.title) ==> r.title == b.title
    ensures TruthyText(f.author) ==> r.author == f.author.value
    ensures !TruthyText(f.author) ==> r.author == b.author
    ensures TruthyYear(f.publishedYear) ==> r.publishedYear == f.publishedYear
    ensures !TruthyYear(f.publishedYear) ==> r.publishedYear == b.publishedYear
  {
    var b1 := if TruthyText(f.title) then b.(title := f.title.value) else b;
    var b2 := if TruthyText(f.author) then b1.(author := f.author.value) else b1;
    if TruthyYear(f.publishedYear) then b2.(publishedYear := f.publishedYear) else b2
  }

  /** Applying the same update twice changes nothing the first did not. */
  lemma MergeIdempotent(b: Book, f: Fields)
    ensures Merge(Merge(b, f), f) == Merge(b, f)
  {
  }
}
