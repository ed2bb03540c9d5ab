/** The service as a state machine: one request is handled at a time, to
    completion, against the catalog the previous request left behind. */
module Service {
  import opened Books
  import opened Handlers

  /** The five routes, with their inputs already extracted from path, query
      and body. */
  datatype Request =
    | PostBook(body: Fields)
    | GetBooks(query: Query)
    | GetBook(id: int)
    | PutBook(id: int, body: Fields)
    | DeleteBook(id: int)

  /** What the client gets back: 201 with the book, 200 with a page, 200 with
      a book, 200 with the updated book, 204 with no body, or an error (400 or
      404) carrying the error's message. */
  datatype Response =
    | Created(book: Book)
    | Listed(page: ListPage)
    | Found(book: Book)
    | Updated(book: Book)
    | Deleted
    | Failed(error: Error, message: string)

  /** Runs one request. Only a create without a truthy title and author
      fails with ValidationError, only a request naming an absent id fails
      with NotFound, and a list never fails. A failed request leaves the
      catalog as it was, every other request answers with its own route's
      response, and only a successful create moves the counter, by one. A
      create appends its book, a list answers with the page `List` computes,
      an update replaces the first book with the id by its merge, and a
      delete cuts that book out. */
  function Handle(c: Catalog, req: Request): (r: (Catalog, Response))
    ensures r.1.Failed? ==> r.0 == c && r.1.message == Message(r.1.error)
    ensures req.GetBooks? || req.GetBook? ==> r.0 == c
    ensures r.0.nextId == if r.1.Created? then c.nextId + 1 else c.nextId
    ensures r.1.Created? ==> r.1.book.id == c.nextId
    ensures r.1.Failed? <==>
              || (req.PostBook? && (!TruthyText(req.body.title) || !TruthyText(req.body.author)))
              || ((req.GetBook? || req.PutBook? || req.DeleteBook?) && !HasId(c.books, req.id))
    ensures r.1.Failed? ==> r.1.error == if req.PostBook? then ValidationError else NotFound
    ensures !r.1.Failed? ==>
              && (req.PostBook? <==> r.1.Created?)
              && (req.GetBooks? <==> r.1.Listed?)
              && (req.GetBook? <==> r.1.Found?)
              && (req.PutBook? <==> r.1.Updated?)
              && (req.DeleteBook? <==> r.1.Deleted?)
    ensures r.1.Found? ==> r.1.book in c.books && r.1.book.id == req.id
    ensures r.1.Created? ==>
              && req.PostBook?
              && r.0.books == c.books + [r.1.book]
              && r.1.book == Book(c.nextId, req.body.title.value, req.body.author.value, req.body.publishedYear)
    ensures r.1.Listed? ==> req.GetBooks? && r.1.page == List(c, req.query)
    ensures r.1.Updated? ==>
              && req.PutBook?
              && exists i :: ReplacedFirst(c.books, r.0.books, req.id, i, r.1.book) && r.1.book == Merge(c.books[i], req.body)
    ensures r.1.Deleted? ==>
              && req.DeleteBook?
              && exists i :: RemovedFirst(c.books, r.0.books, req.id, i)
  {
    match req
    case PostBook(body) =>
      (match Create(c, body)
       case Ok((c', b)) => (c', Created(b))
       case Err(e) => (c, Failed(e, Message(e))))
    case GetBooks(q) =>
      (c, Listed(List(c, q)))
    case GetBook(id) =>
      (match GetById(c, id)
       case Ok(b) => (c, Found(b))
       case Err(e) => (c, Failed(e, Message(e))))
    case PutBook(id, body) =>
      (match Update(c, id, body)
       case Ok((c', b)) => (c', Updated(b))
       case Err(e) => (c, Failed(e, Message(e))))
    case DeleteBook(id) =>
      (match Delete(c, id)
       case Ok(c') => (c', Deleted)
       case Err(e) => (c, Failed(e, Message(e))))
  }

  /** Every request keeps the catalog invariant. */
  lemma HandlePreservesValid(c: Catalog, req: Request)
    requires Valid(c)
    ensures Valid(Handle(c, req).0)
  {
    match req
    case PostBook(body) =>
      if Create(c, body).Ok? {
        CreatePreservesValid(c, body);
      }
    case GetBooks(_) =>
    case GetBook(_) =>
    case PutBook(id, body) =>
      if Update(c, id, body).Ok? {
        UpdatePreservesValid(c, id, body);
      }
    case DeleteBook(id) =>
      if Delete(c, id).Ok? {
        DeletePreservesValid(c, id);
      }
  }

  /** Runs requests in order, returning the final catalog and one response
      per request. The counter never goes down. */
  function Run(c: Catalog, reqs: seq<Request>): (r: (Catalog, seq<Response>))
    ensures |r.1| == |reqs|
    ensures r.0.nextId >= c.nextId
    decreases |reqs|
  {
    if |reqs| == 0 then
      (c, [])
    else
      var (c1, resp) := Handle(c, reqs[0]);
      var (cn, rest) := Run(c1, reqs[1..]);
      (cn, [resp] + rest)
  }

  /** Every catalog reachable from a valid one keeps the invariant; in
      particular every catalog reachable from the empty start. */
  lemma {:induction false} RunPreservesValid(c: Catalog, reqs: seq<Request>)
    requires Valid(c)
    ensures Valid(Run(c, reqs).0)
    decreases |reqs|
  {
    if |reqs| > 0 {
      HandlePreservesValid(c, reqs[0]);
      RunPreservesValid(Handle(c, reqs[0]).0, reqs[1..]);
    }
  }

  /** The ids of the books created along a run, in order. */
  function CreatedIds(rs: seq<Response>): seq<int> {
    if |rs| == 0 then []
    else if rs[0].Created? then [rs[0].book.id] + CreatedIds(rs[1..])
    else CreatedIds(rs[1..])
  }

  /** `ids` strictly increase and all lie in [lo, hi). */
  predicate FreshBetween(ids: seq<int>, lo: int, hi: int) {
    && (forall i, j :: 0 <= i < j < |ids| ==> ids[i] < ids[j])
    && (forall i :: 0 <= i < |ids| ==> lo <= ids[i] < hi)
  }

  /** Ids are never reused, even after deletes: the ids handed out along a
      run strictly increase, start at the counter's value before the run and
      stay below its value after it. */
  lemma {:induction false} CreatedIdsFresh(c: Catalog, reqs: seq<Request>)
    ensures FreshBetween(CreatedIds(Run(c, reqs).1), c.nextId, Run(c, reqs).0.nextId)
    decreases |reqs|
  {
    if |reqs| > 0 {
      var h := Handle(c, reqs[0]);
      var c1 := h.0;
      var resp := h.1;
      var later := Run(c1, reqs[1..]);
      CreatedIdsFresh(c1, reqs[1..]);
      var hi := later.0.nextId;
      var tail := CreatedIds(later.1);
      assert FreshBetween(tail, c1.nextId, hi);
      assert Run(c, reqs) == (later.0, [resp] + later.1);
      var rs := [resp] + later.1;
      assert rs[0] == resp && rs[1..] == later.1;
      if resp.Created? {
        var ids := [resp.book.id] + tail;
        assert CreatedIds(rs) == ids;
        assert resp.book.id == c.nextId && c1.nextId == c.nextId + 1;
        forall i, j | 0 <= i < j < |ids| ensures ids[i] < ids[j] {
          assert ids[j] == tail[j - 1];
          if i > 0 {
            assert ids[i] == tail[i - 1];
          }
        }
        forall i | 0 <= i < |ids| ensures c.nextId <= ids[i] < hi {
          if i > 0 {
            assert ids[i] == tail[i - 1];
          } else {
            assert c1.nextId <= hi;
          }
        }
      } else {
        assert CreatedIds(rs) == tail;
        assert c1.nextId == c.nextId;
      }
    }
  }

  /** Deleting a book and then asking for it answers NotFound, whether or not
      the delete found the book. */
  lemma DeleteThenGet(c: Catalog, id: int)
    requires Valid(c)
    ensures Run(c, [DeleteBook(id), GetBook(id)]).1[1] == Failed(NotFound, "Book not found")
  {
    if Delete(c, id).Ok? {
      GetAfterDelete(c, id);
    }
  }

  /** A successful delete lowers the unfiltered list total by exactly one. */
  lemma DeleteLowersTotal(c: Catalog, id: int, q: Query)
    requires Delete(c, id).Ok?
    requires !TruthyText(q.author)
    ensures List(Delete(c, id).value, q).total == List(c, q).total - 1
  {
  }

  /** POST {title: "Dune", author: "Herbert"} on a fresh service creates book
      1; POST {title: "Foo"} is then refused with a validation error. */
  lemma DuneScenario()
    ensures Run(Initial, [PostBook(Fields(Some("Dune"), Some("Herbert"), None)),
                          PostBook(Fields(Some("Foo"), None, None))]).1
            == [Created(Book(1, "Dune", "Herbert", None)), Failed(ValidationError, "Title and author are required")]
  {
  }

  /** The filter "tolkien" matches the author "J.R.R. Tolkien". */
  lemma TolkienMatches(b: Book)
    requires b.author == "J.R.R. Tolkien"
    ensures MatchesAuthor(b, "tolkien")
  {
    var hay := Text.Lower(b.author);
    var needle := Text.Lower("tolkien");
    assert needle == "tolkien";
    assert hay == "j.r.r. tolkien";
    assert Text.OccursAt(hay, needle, 7);
  }
}
