/**
  The book repository: the tables it reads and writes, the add-book
  transaction (insert the book, link its authors, commit or roll back) and
  the two read queries that feed the book list and the add-book form.
*/
module BookDao {
  import opened Wrappers

  /** A row of `books` (the publication date and the borrowed flag are not modelled). */
  datatype Book = Book(title: string, price: real, status: string, categoryId: int)

  /** A row of `book_authors`. */
  datatype Link = Link(bookId: nat, authorId: int)

  /** A row of `categories`; only active ones are offered in forms. */
  datatype Category = Category(name: string, isActive: bool)

  /** The state of the store: the tables and the generator of book ids. */
  datatype Tables = Tables(
    books: map<nat, Book>,
    links: seq<Link>,
    nextId: nat,
    authors: map<int, string>,
    categories: map<int, Category>)
  {
    /** Every book id was drawn from the generator, and every link points at a book. */
    ghost predicate Valid() {
      && (forall id :: id in books ==> id < nextId)
      && (forall i :: 0 <= i < |links| ==> links[i].bookId in books)
    }
  }

  /** The arguments of one add-book call. */
  datatype AddBookRequest = AddBookRequest(
    title: string, price: real, status: string, categoryId: int, authorIds: seq<int>)

  /**
    Where the store refuses a statement: opening the connection, the book
    insert, the link insert for any author id in `rejectedAuthors`, or the commit.
  */
  datatype Faults = Faults(
    connectFails: bool, bookInsertFails: bool, rejectedAuthors: set<int>, commitFails: bool)

  const NoFaults := Faults(false, false, {}, false)

  /** The error an add-book call raises. */
  datatype DbError =
    | ConnectFailed
    | BookInsertFailed
    | LinkInsertFailed(authorId: int)
    | CommitFailed

  /** The tables after an add-book call, and what it returned or raised. */
  datatype TxOutcome = TxOutcome(tables: Tables, result: Result<bool, DbError>)

  function BookOf(req: AddBookRequest): Book {
    Book(req.title, req.price, req.status, req.categoryId)
  }

  /** One link from book `id` to each author id, in list order. */
  function LinksOf(id: nat, authorIds: seq<int>): (r: seq<Link>)
    ensures |r| == |authorIds|
    ensures forall i :: 0 <= i < |r| ==> r[i].bookId == id && r[i].authorId == authorIds[i]
  {
    seq(|authorIds|, i requires 0 <= i < |authorIds| => Link(id, authorIds[i]))
  }

  /**
    The position of the first author id whose link insert the store refuses,
    or |authorIds| when it refuses none.
  */
  function FirstRejected(authorIds: seq<int>, rejected: set<int>): (k: nat)
    ensures k <= |authorIds|
    ensures forall j :: 0 <= j < k ==> authorIds[j] !in rejected
    ensures k < |authorIds| ==> authorIds[k] in rejected
  {
    if authorIds == [] then 0
    else if authorIds[0] in rejected then 0
    else 1 + FirstRejected(authorIds[1..], rejected)
  }

  /** The tables once the transaction of `req` has committed. */
  function Committed(t: Tables, req: AddBookRequest): (r: Tables)
    ensures r.nextId == t.nextId + 1
    ensures r.authors == t.authors && r.categories == t.categories
    ensures t.nextId in r.books && r.books[t.nextId] == BookOf(req)
    ensures forall id :: id in r.books <==> id in t.books || id == t.nextId
    ensures t.Valid() ==> t.nextId !in t.books
    ensures t.Valid() ==> forall id :: id in t.books ==> r.books[id] == t.books[id]
    ensures |r.links| == |t.links| + |req.authorIds|
    ensures r.links[..|t.links|] == t.links
    ensures r.links[|t.links|..] == LinksOf(t.nextId, req.authorIds)
    ensures t.Valid() ==> r.Valid()
  {
    var r := t.(books := t.books[t.nextId := BookOf(req)],
                links := t.links + LinksOf(t.nextId, req.authorIds),
                nextId := t.nextId + 1);
    assert r.links[..|t.links|] == t.links;
    r
  }

  /**
    The add-book transaction as a whole: all of it commits, or the tables are
    left exactly as they were and the first error is raised.
  */
  function Transact(t: Tables, req: AddBookRequest, f: Faults): (o: TxOutcome)
    ensures o.result.Success? <==>
      && !f.connectFails && !f.bookInsertFails && !f.commitFails
      && forall j :: 0 <= j < |req.authorIds| ==> req.authorIds[j] !in f.rejectedAuthors
    ensures o.result.Success? ==> o.result.value && o.tables == Committed(t, req)
    ensures o.result.Failure? ==> o.tables == t
    ensures o.result == Failure(ConnectFailed) <==> f.connectFails
    ensures o.result == Failure(BookInsertFailed) <==> !f.connectFails && f.bookInsertFails
    ensures o.result.Failure? && o.result.error.LinkInsertFailed? ==>
      o.result.error.authorId in req.authorIds && o.result.error.authorId in f.rejectedAuthors
    ensures o.result.Failure? && o.result.error.LinkInsertFailed? ==>
      o.result.error.authorId == req.authorIds[FirstRejected(req.authorIds, f.rejectedAuthors)]
    ensures o.result == Failure(CommitFailed) <==>
      && !f.connectFails && !f.bookInsertFails && f.commitFails
      && FirstRejected(req.authorIds, f.rejectedAuthors) == |req.authorIds|
  {
    if f.connectFails then TxOutcome(t, Failure(ConnectFailed))
    else if f.bookInsertFails then TxOutcome(t, Failure(BookInsertFailed))
    else
      var k := FirstRejected(req.authorIds, f.rejectedAuthors);
      if k < |req.authorIds| then TxOutcome(t, Failure(LinkInsertFailed(req.authorIds[k])))
      else if f.commitFails then TxOutcome(t, Failure(CommitFailed))
      else TxOutcome(Committed(t, req), Success(true))
  }

  /** One row of the book list: id, title, category name, price, status, author names. */
  datatype BookRow = BookRow(
    id: nat, title: string, category: Option<string>, price: real, status: string,
    authors: seq<string>)

  /** Names of the authors linked to book `id`, in link order; links to missing authors give no name. */
  function AuthorNames(links: seq<Link>, authors: map<int, string>, id: nat): (names: seq<string>)
    ensures |names| <= |links|
    ensures forall n :: n in names ==>
      exists i :: 0 <= i < |links| && links[i].bookId == id && links[i].authorId in authors
                  && authors[links[i].authorId] == n
    ensures forall i :: 0 <= i < |links| && links[i].bookId == id && links[i].authorId in authors ==>
      authors[links[i].authorId] in names
  {
    if links == [] then []
    else
      var rest := AuthorNames(links[1..], authors, id);
      assert forall n :: n in rest ==>
        exists i :: 1 <= i < |links| && links[i].bookId == id && links[i].authorId in authors
                    && authors[links[i].authorId] == n by {
        forall n | n in rest
          ensures exists i :: 1 <= i < |links| && links[i].bookId == id
                    && links[i].authorId in authors && authors[links[i].authorId] == n
        {
          var i :| 0 <= i < |links[1..]| && links[1..][i].bookId == id
                   && links[1..][i].authorId in authors && authors[links[1..][i].authorId] == n;
          assert links[i + 1] == links[1..][i];
        }
      }
      assert forall i :: 1 <= i < |links| ==> links[i] == links[1..][i - 1];
      if links[0].bookId == id && links[0].authorId in authors
      then [authors[links[0].authorId]] + rest
      else rest
  }

  /**
    The list row of book `id`: its own fields; the category's name when the
    category exists and none otherwise; the names of its linked authors.
  */
  function RowOf(t: Tables, id: nat): (row: BookRow)
    requires id in t.books
    ensures row.id == id
    ensures var b := t.books[id]; row.title == b.title && row.price == b.price && row.status == b.status
    ensures row.category.Some? <==> t.books[id].categoryId in t.categories
    ensures row.category.Some? ==> row.category.value == t.categories[t.books[id].categoryId].name
    ensures row.authors == AuthorNames(t.links, t.authors, id)
  {
    var b := t.books[id];
    BookRow(id, b.title,
            if b.categoryId in t.categories then Some(t.categories[b.categoryId].name) else None,
            b.price, b.status, AuthorNames(t.links, t.authors, id))
  }

  /** `id` occurs in `ids`. */
  predicate Among(ids: seq<nat>, id: nat) {
    id in ids
  }

  /** The ids of the books below `k`, highest first. */
  function IdsBelow(books: map<nat, Book>, k: nat): (ids: seq<nat>)
    ensures forall i, j :: 0 <= i < j < |ids| ==> ids[i] > ids[j]
    ensures forall i :: 0 <= i < |ids| ==> ids[i] in books && ids[i] < k
    ensures forall id {:trigger Among(ids, id)} :: id in books && id < k ==> Among(ids, id)
  {
    if k == 0 then []
    else
      var rest := IdsBelow(books, k - 1);
      if k - 1 in books then
        var ids := [k - 1] + rest;
        assert forall i :: 1 <= i < |ids| ==> ids[i] == rest[i - 1];
        assert forall id {:trigger Among(ids, id)} :: id in books && id < k ==> Among(ids, id) by {
          forall id | id in books && id < k
            ensures Among(ids, id)
          {
            if id < k - 1 {
              assert Among(rest, id);
            }
          }
        }
        ids
      else rest
  }

  /** Some row of `rows` shows book `id`. */
  predicate Lists(rows: seq<BookRow>, id: nat) {
    exists i :: 0 <= i < |rows| && rows[i].id == id
  }

  /** `get_all_books`: one row per book, ordered by id descending. */
  function AllBooks(t: Tables): (rows: seq<BookRow>)
    requires t.Valid()
    ensures forall i, j :: 0 <= i < j < |rows| ==> rows[i].id > rows[j].id
    ensures forall i :: 0 <= i < |rows| ==> rows[i].id in t.books && rows[i] == RowOf(t, rows[i].id)
    ensures forall id {:trigger Lists(rows, id)} :: id in t.books ==> Lists(rows, id)
  {
    var ids := IdsBelow(t.books, t.nextId);
    var rows := seq(|ids|, i requires 0 <= i < |ids| => RowOf(t, ids[i]));
    assert forall id {:trigger Lists(rows, id)} :: id in t.books ==> Lists(rows, id) by {
      forall id | id in t.books
        ensures Lists(rows, id)
      {
        assert Among(ids, id);
        var i :| 0 <= i < |ids| && ids[i] == id;
        assert rows[i].id == id;
      }
    }
    rows
  }

  /** `get_authors_and_categories`: every author, and the active categories only (id to name). */
  function AuthorsAndCategories(t: Tables): (r: (map<int, string>, map<int, string>))
    ensures r.0 == t.authors
    ensures forall id :: id in r.1 <==> id in t.categories && t.categories[id].isActive
    ensures forall id :: id in r.1 ==> r.1[id] == t.categories[id].name
  {
    (t.authors, map id | id in t.categories && t.categories[id].isActive :: t.categories[id].name)
  }

  /** A committed book is the first row of the book list: it has the highest id. */
  lemma NewBookListedFirst(t: Tables, req: AddBookRequest)
    requires t.Valid()
    ensures |AllBooks(Committed(t, req))| > 0
    ensures AllBooks(Committed(t, req))[0] == RowOf(Committed(t, req), t.nextId)
  {
  }

  lemma {:induction false} AuthorNamesAppend(a: seq<Link>, b: seq<Link>, authors: map<int, string>, id: nat)
    ensures AuthorNames(a + b, authors, id) == AuthorNames(a, authors, id) + AuthorNames(b, authors, id)
    decreases |a|
  {
    if a == [] {
      assert a + b == b;
    } else {
      assert (a + b)[0] == a[0] && (a + b)[1..] == a[1..] + b;
      AuthorNamesAppend(a[1..], b, authors, id);
    }
  }

  lemma {:induction false} AuthorNamesUnlinked(links: seq<Link>, authors: map<int, string>, id: nat)
    requires forall i :: 0 <= i < |links| ==> links[i].bookId != id
    ensures AuthorNames(links, authors, id) == []
    decreases |links|
  {
    if links != [] {
      AuthorNamesUnlinked(links[1..], authors, id);
    }
  }

  lemma {:induction false} AuthorNamesOfLinksOf(id: nat, authorIds: seq<int>, authors: map<int, string>)
    requires forall i :: 0 <= i < |authorIds| ==> authorIds[i] in authors
    ensures AuthorNames(LinksOf(id, authorIds), authors, id)
         == seq(|authorIds|, i requires 0 <= i < |authorIds| => authors[authorIds[i]])
    decreases |authorIds|
  {
    if authorIds != [] {
      var links := LinksOf(id, authorIds);
      assert links[1..] == LinksOf(id, authorIds[1..]);
      AuthorNamesOfLinksOf(id, authorIds[1..], authors);
    }
  }

  /**
    In the book list after a committed add-book call, the new book's row (the
    first one, by NewBookListedFirst) shows
    exactly the names of the given authors, in the given order, when they all exist.
  */
  lemma NewBookRowNamesItsAuthors(t: Tables, req: AddBookRequest)
    requires t.Valid()
    requires forall i :: 0 <= i < |req.authorIds| ==> req.authorIds[i] in t.authors
    ensures RowOf(Committed(t, req), t.nextId).authors
         == seq(|req.authorIds|, i requires 0 <= i < |req.authorIds| => t.authors[req.authorIds[i]])
  {
    var r := Committed(t, req);
    assert r.links == t.links + LinksOf(t.nextId, req.authorIds) by {
      assert r.links == r.links[..|t.links|] + r.links[|t.links|..];
    }
    AuthorNamesAppend(t.links, LinksOf(t.nextId, req.authorIds), t.authors, t.nextId);
    AuthorNamesUnlinked(t.links, t.authors, t.nextId);
    AuthorNamesOfLinksOf(t.nextId, req.authorIds, t.authors);
  }

  /** The store and its tables, updated in place by the repository's writes. */
  class Database {
    var books: map<nat, Book>
    var links: seq<Link>
    var nextId: nat
    var authors: map<int, string>
    var categories: map<int, Category>

    function Snapshot(): Tables
      reads this
    {
      Tables(books, links, nextId, authors, categories)
    }

    ghost predicate Valid()
      reads this
    {
      Snapshot().Valid()
    }

    /**
      `add_book_transaction`: insert the book, take its fresh id, insert one
      link per author id, then commit; on any failure roll back and raise.
    */
    method AddBookTransaction(title: string, price: real, status: string, categoryId: int,
                              authorIds: seq<int>, faults: Faults)
      returns (result: Result<bool, DbError>)
      requires Valid()
      modifies this
      ensures Valid()
      ensures var o := Transact(old(Snapshot()), AddBookRequest(title, price, status, categoryId, authorIds), faults);
        Snapshot() == o.tables && result == o.result
    {
      ghost var req := AddBookRequest(title, price, status, categoryId, authorIds);
      if faults.connectFails {
        return Failure(ConnectFailed);
      }
      var savedBooks, savedLinks, savedNextId := books, links, nextId;
      if faults.bookInsertFails {
        return Failure(BookInsertFailed);
      }
      var newId := nextId;
      books := books[newId := Book(title, price, status, categoryId)];
      nextId := nextId + 1;
      var i := 0;
      while i < |authorIds|
        invariant 0 <= i <= |authorIds|
        invariant books == savedBooks[newId := Book(title, price, status, categoryId)]
        invariant nextId == newId + 1 && newId == savedNextId
        invariant links == savedLinks + LinksOf(newId, authorIds[..i])
        invariant authors == old(authors) && categories == old(categories)
        invariant forall j :: 0 <= j < i ==> authorIds[j] !in faults.rejectedAuthors
      {
        if authorIds[i] in faults.rejectedAuthors {
          books, links, nextId := savedBooks, savedLinks, savedNextId;
          assert FirstRejected(authorIds, faults.rejectedAuthors) == i;
          return Failure(LinkInsertFailed(authorIds[i]));
        }
        links := links + [Link(newId, authorIds[i])];
        i := i + 1;
        assert LinksOf(newId, authorIds[..i]) == LinksOf(newId, authorIds[..i - 1]) + [Link(newId, authorIds[i - 1])];
      }
      assert authorIds[..i] == authorIds;
      assert FirstRejected(authorIds, faults.rejectedAuthors) == |authorIds|;
      if faults.commitFails {
        books, links, nextId := savedBooks, savedLinks, savedNextId;
        return Failure(CommitFailed);
      }
      assert Snapshot() == Committed(old(Snapshot()), req);
      return Success(true);
    }
  }
}
