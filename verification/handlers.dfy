/** The five request handlers of the books service, each a pure function of
    the catalog and the request's inputs. A handler that changes the catalog
    returns the new catalog; a failure returns only the error, so the caller
    keeps the old catalog. */
module Handlers {
  import opened Books
  import Slice

  // ---------------------------------------------------------------------------
  // Create: POST /books

  /** Rejects a body whose title or author is missing or empty; otherwise
      hands out the counter value as the new id, bumps the counter and appends
      the book, storing publishedYear exactly as given. */
  function Create(c: Catalog, body: Fields): (r: Result<(Catalog, Book)>)
    ensures r.Err? <==> !TruthyText(body.title) || !TruthyText(body.author)
    ensures r.Err? ==> r.error == ValidationError
    ensures r.Ok? ==>
              var (c', b) := r.value;
              && b.id == c.nextId
              && b.title == body.title.value
              && b.author == body.author.value
              && b.publishedYear == body.publishedYear
              && c'.nextId == c.nextId + 1
              && |c'.books| == |c.books| + 1
              && c'.books[..|c.books|] == c.books
              && c'.books[|c.books|] == b
  {
    if !TruthyText(body.title) || !TruthyText(body.author) then
      Err(ValidationError)
    else
      var b := Book(c.nextId, body.title.value, body.author.value, body.publishedYear);
      Ok((Catalog(c.books + [b], c.nextId + 1), b))
  }

  /** The created book's id is above every id already in the catalog, and the
      invariant survives the append. */
  lemma CreatePreservesValid(c: Catalog, body: Fields)
    requires Valid(c)
    requires Create(c, body).Ok?
    ensures var (c', b) := Create(c, body).value;
            && Valid(c')
            && forall i :: 0 <= i < |c.books| ==> c.books[i].id < b.id
  {
    var (c', b) := Create(c, body).value;
    forall i | 0 <= i < |c'.books| ensures 1 <= c'.books[i].id < c'.nextId {
      if i < |c.books| {
        assert c'.books[i] == c.books[i];
      }
    }
  }

  // ---------------------------------------------------------------------------
  // List: GET /books?page=&size=&author=

  /** Query parameters, already read as integers; None when absent. */
  datatype Query = Query(page: Option<int>, size: Option<int>, author: Option<string>)

  /** The list response body. */
  datatype ListPage = ListPage(page: int, size: int, total: int, data: seq<Book>)

  const DefaultPage := 1
  const DefaultSize := 10

  /** The books a list request ranges over: all of them when the author
      filter is absent or empty, else those whose author matches it. */
  function Selected(books: seq<Book>, author: Option<string>): (r: seq<Book>)
    ensures !TruthyText(author) ==> r == books
    ensures TruthyText(author) ==>
              forall b :: b in r <==> b in books && MatchesAuthor(b, author.value)
    ensures TruthyText(author) ==>
              forall b :: multiset(r)[b] == if MatchesAuthor(b, author.value) then multiset(books)[b] else 0
    ensures IsSubsequence(r, books)
  {
    if TruthyText(author) then
      FilterByAuthor(books, author.value)
    else
      SubsequenceOfItself(books);
      books
  }

  /** Echoes page and size (defaulting to 1 and 10), reports how many books
      match the filter, and returns the requested page of them. */
  function List(c: Catalog, q: Query): (r: ListPage)
    ensures r.page == q.page.GetOr(DefaultPage)
    ensures r.size == q.size.GetOr(DefaultSize)
    ensures !TruthyText(q.author) ==> r.total == |c.books|
    ensures r.total == |Selected(c.books, q.author)| <= |c.books|
    ensures |r.data| <= r.total
    ensures forall b :: b in r.data ==> b in c.books
    ensures TruthyText(q.author) ==>
              forall b :: b in r.data ==> MatchesAuthor(b, q.author.value)
  {
    var page := q.page.GetOr(DefaultPage);
    var size := q.size.GetOr(DefaultSize);
    var selected := Selected(c.books, q.author);
    var start := Slice.PageStart(page, size);
    var data := Slice.JsSlice(selected, start, start + size);
    assert forall k :: 0 <= k < |data| ==> data[k] in selected;
    ListPage(page, size, |selected|, data)
  }

  /** For page >= 1 and size >= 0 the data is the run of matching books that
      starts at (page - 1) * size: at most `size` long, cut short by the end,
      and empty past the end. */
  lemma ListWindow(c: Catalog, q: Query)
    requires q.page.GetOr(DefaultPage) >= 1 && q.size.GetOr(DefaultSize) >= 0
    ensures var r := List(c, q);
            var sel := Selected(c.books, q.author);
            var start := Slice.PageStart(r.page, r.size);
            && 0 <= start
            && |r.data| <= r.size
            && (start >= |sel| ==> r.data == [])
            && (start < |sel| ==>
                  r.data == sel[start..if start + r.size <= |sel| then start + r.size else |sel|])
  {
    Slice.PageWindow(Selected(c.books, q.author), q.page.GetOr(DefaultPage), q.size.GetOr(DefaultSize));
  }

  /** With no query parameters the response covers the whole catalog and
      returns its first ten books (fewer if there are fewer). */
  lemma ListDefaults(c: Catalog)
    ensures var r := List(c, Query(None, None, None));
            && r.total == |c.books|
            && r.data == c.books[..if |c.books| < 10 then |c.books| else 10]
  {
    Slice.PageWindow(c.books, 1, 10);
  }

  /** A slice of a sequence with increasing ids has increasing ids. */
  lemma SliceKeepsOrder(s: seq<Book>, start: int, end: int)
    requires IdsIncreasing(s)
    ensures IdsIncreasing(Slice.JsSlice(s, start, end))
  {
    var w := Slice.JsSlice(s, start, end);
    var a := Slice.ClampIndex(start, |s|);
    forall i, j | 0 <= i < j < |w| ensures w[i].id < w[j].id {
      assert w[i] == s[a + i] && w[j] == s[a + j];
    }
  }

  /** Under the invariant a listed page is in catalog order: its ids increase. */
  lemma ListKeepsOrder(c: Catalog, q: Query)
    requires Valid(c)
    ensures IdsIncreasing(List(c, q).data)
  {
    var sel := Selected(c.books, q.author);
    SubsequenceKeepsOrder(sel, c.books);
    var start := Slice.PageStart(q.page.GetOr(DefaultPage), q.size.GetOr(DefaultSize));
    SliceKeepsOrder(sel, start, start + q.size.GetOr(DefaultSize));
  }

  // ---------------------------------------------------------------------------
  // GetById: GET /books/:id

  /** The first book whose id equals `id`, or NotFound when there is none. */
  function GetById(c: Catalog, id: int): (r: Result<Book>)
    ensures r.Err? <==> !HasId(c.books, id)
    ensures r.Err? ==> r.error == NotFound
    ensures r.Ok? ==> r.value in c.books && r.value.id == id
  {
    match FindIndex(c.books, id)
    case None => Err(NotFound)
    case Some(i) => Ok(c.books[i])
  }

  /** Under the invariant the book found is the only one carrying that id. */
  lemma GetByIdUnique(c: Catalog, id: int, b: Book)
    requires Valid(c)
    requires b in c.books && b.id == id
    ensures GetById(c, id) == Ok(b)
  {
    var i :| 0 <= i < |c.books| && c.books[i] == b;
    FindIndexUnique(c.books, id, i);
  }

  // ---------------------------------------------------------------------------
  // Update: PUT /books/:id

  /** `after` is `before` with position `i`, the first one holding `id`,
      replaced by `b`, and every other position left as it was. */
  predicate ReplacedFirst(before: seq<Book>, after: seq<Book>, id: int, i: int, b: Book) {
    && 0 <= i < |before|
    && before[i].id == id
    && (forall j :: 0 <= j < i ==> before[j].id != id)
    && |after| == |before|
    && after[i] == b
    && (forall j :: 0 <= j < |before| && j != i ==> after[j] == before[j])
  }

  /** NotFound when no book has the id; otherwise the first book with that
      id gets the truthy fields of the body and nothing else in the catalog
      moves or changes. */
  function Update(c: Catalog, id: int, body: Fields): (r: Result<(Catalog, Book)>)
    ensures r.Err? <==> !HasId(c.books, id)
    ensures r.Err? ==> r.error == NotFound
    ensures r.Ok? ==>
              var (c', b) := r.value;
              && c'.nextId == c.nextId
              && b.id == id
              && exists i :: ReplacedFirst(c.books, c'.books, id, i, b) && b == Merge(c.books[i], body)
  {
    match FindIndex(c.books, id)
    case None => Err(NotFound)
    case Some(i) =>
      var b := Merge(c.books[i], body);
      var c' := Catalog(c.books[i := b], c.nextId);
      assert ReplacedFirst(c.books, c'.books, id, i, b);
      Ok((c', b))
  }

  /** Update keeps the invariant; under it, every id stays where it was, only
      the book with the given id can differ, and looking that id up afterwards
      yields the updated book. */
  lemma UpdatePreservesValid(c: Catalog, id: int, body: Fields)
    requires Valid(c)
    requires Update(c, id, body).Ok?
    ensures var (c', b) := Update(c, id, body).value;
            && Valid(c')
            && |c'.books| == |c.books|
            && (forall j :: 0 <= j < |c.books| ==> c'.books[j].id == c.books[j].id)
            && (forall j :: 0 <= j < |c.books| && c.books[j].id != id ==> c'.books[j] == c.books[j])
            && GetById(c', id) == Ok(b)
  {
    var (c', b) := Update(c, id, body).value;
    var i :| ReplacedFirst(c.books, c'.books, id, i, b) && b == Merge(c.books[i], body);
    assert forall j :: 0 <= j < |c.books| ==> c'.books[j].id == c.books[j].id;
    GetByIdUnique(c', id, b);
  }

  // ---------------------------------------------------------------------------
  // Delete: DELETE /books/:id

  /** `after` is `before` with position `i`, the first one holding `id`, cut
      out and the rest kept in order. */
  predicate RemovedFirst(before: seq<Book>, after: seq<Book>, id: int, i: int) {
    && 0 <= i < |before|
    && before[i].id == id
    && (forall j :: 0 <= j < i ==> before[j].id != id)
    && after == before[..i] + before[i + 1..]
  }

  /** NotFound when no book has the id; otherwise exactly one book, the first
      with that id, leaves the catalog and the counter stays. */
  function Delete(c: Catalog, id: int): (r: Result<Catalog>)
    ensures r.Err? <==> !HasId(c.books, id)
    ensures r.Err? ==> r.error == NotFound
    ensures r.Ok? ==> r.value.nextId == c.nextId && |r.value.books| == |c.books| - 1
    ensures r.Ok? ==> exists i :: RemovedFirst(c.books, r.value.books, id, i)
    ensures r.Ok? ==> exists i :: 0 <= i < |c.books| && c.books[i].id == id
                                  && multiset(c.books) == multiset(r.value.books) + multiset{c.books[i]}
  {
    match FindIndex(c.books, id)
    case None => Err(NotFound)
    case Some(i) =>
      var c' := Catalog(c.books[..i] + c.books[i + 1..], c.nextId);
      assert RemovedFirst(c.books, c'.books, id, i);
      DeleteMultiset(c.books, c'.books, id, i);
      Ok(c')
  }

  /** Position k of the shortened catalog holds what position k (before the
      cut) or k + 1 (after it) held. */
  lemma RemovedIndex(before: seq<Book>, after: seq<Book>, id: int, i: int, k: int)
    requires RemovedFirst(before, after, id, i)
    requires 0 <= k < |after|
    ensures after[k] == before[if k < i then k else k + 1]
  {
  }

  /** Delete keeps the invariant. */
  lemma DeletePreservesValid(c: Catalog, id: int)
    requires Valid(c)
    requires Delete(c, id).Ok?
    ensures Valid(Delete(c, id).value)
  {
    var c' := Delete(c, id).value;
    var i :| RemovedFirst(c.books, c'.books, id, i);
    forall a, b | 0 <= a < b < |c'.books| ensures c'.books[a].id < c'.books[b].id {
      RemovedIndex(c.books, c'.books, id, i, a);
      RemovedIndex(c.books, c'.books, id, i, b);
    }
    forall a | 0 <= a < |c'.books| ensures 1 <= c'.books[a].id < c'.nextId {
      RemovedIndex(c.books, c'.books, id, i, a);
    }
  }

  /** Under the invariant the books left after a delete are exactly the old
      ones without that id. */
  lemma DeleteRemovesOnlyTarget(c: Catalog, id: int)
    requires Valid(c)
    requires Delete(c, id).Ok?
    ensures forall b :: b in Delete(c, id).value.books <==> b in c.books && b.id != id
  {
    var c' := Delete(c, id).value;
    var i :| RemovedFirst(c.books, c'.books, id, i);
    var s := c.books;
    forall b ensures b in c'.books <==> b in s && b.id != id {
      if b in c'.books {
        var k :| 0 <= k < |c'.books| && c'.books[k] == b;
        RemovedIndex(s, c'.books, id, i, k);
        var m := if k < i then k else k + 1;
        if b.id == id {
          IdsUnique(s, m, i);
        }
      }
      if b in s && b.id != id {
        var m :| 0 <= m < |s| && s[m] == b;
        var k := if m < i then m else m - 1;
        RemovedIndex(s, c'.books, id, i, k);
      }
    }
  }

  /** Under the invariant, looking a deleted id up afterwards yields NotFound. */
  lemma GetAfterDelete(c: Catalog, id: int)
    requires Valid(c)
    requires Delete(c, id).Ok?
    ensures GetById(Delete(c, id).value, id) == Err(NotFound)
  {
    var c' := Delete(c, id).value;
    DeleteRemovesOnlyTarget(c, id);
    forall k | 0 <= k < |c'.books| ensures c'.books[k].id != id {
      assert c'.books[k] in c'.books;
    }
  }

  /** Cutting position `i` out removes exactly one copy of the book there
      from the multiset of books. */
  lemma DeleteMultiset(before: seq<Book>, after: seq<Book>, id: int, i: int)
    requires RemovedFirst(before, after, id, i)
    ensures multiset(before) == multiset(after) + multiset{before[i]}
  {
    assert before == before[..i] + [before[i]] + before[i + 1..];
  }
}
