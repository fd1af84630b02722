/**
  The bulk import: a parsed JSON document is replayed, element by element,
  as one add-book transaction per element that carries both a title and a
  price. Each transaction commits on its own; nothing undoes the earlier ones
  when a later one fails.
*/
module ImportService {
  import opened Wrappers
  import opened BookDao

  /** The keys of a JSON object that the import looks at; None when the key is absent. */
  datatype Fields = Fields(
    title: Option<string>, price: Option<real>, authors: Option<seq<int>>, categoryId: Option<int>)

  /**
    One element of the top-level list. `Object` is a JSON object; `Atom` is a
    number, boolean or null (testing `'title' in` it raises a TypeError);
    `Container` is a string or a list, for which `'title' in` is a substring
    or membership test and `item.get` then raises an AttributeError.
  */
  datatype Element =
    | Object(fields: Fields)
    | Atom
    | Container(hasTitle: bool, hasPrice: bool)

  /** The document as `json.load` leaves it. */
  datatype Document = Array(elements: seq<Element>) | NotArray | Malformed

  /** What the import raises. */
  datatype ImportError =
    | BadJson         // json.load failed
    | NotAList        // the top level is not a list
    | NotIterable     // `'title' in item` on a number, boolean or null
    | NoGet           // `item.get` on a string or list that mentions both keys
    | Db(cause: DbError)

  /** The tables after an import, and the count it returned or what it raised. */
  datatype ImportOutcome = ImportOutcome(tables: Tables, result: Result<nat, ImportError>)

  const DefaultAuthors: seq<int> := [1]
  const DefaultCategory: int := 1
  const ImportStatus: string := "new"

  /** The element has both a title and a price, so the import inserts it. */
  predicate Eligible(e: Element) {
    e.Object? && e.fields.title.Some? && e.fields.price.Some?
  }

  /** The element makes the import raise before any insert for it. */
  predicate Fatal(e: Element) {
    e.Atom? || (e.Container? && e.hasTitle && e.hasPrice)
  }

  /** The number of eligible elements. */
  function CountEligible(items: seq<Element>): (n: nat)
    ensures n <= |items|
    ensures n == 0 <==> forall i :: 0 <= i < |items| ==> !Eligible(items[i])
  {
    if items == [] then 0
    else (if Eligible(items[0]) then 1 else 0) + CountEligible(items[1..])
  }

  /** The add-book call issued for an eligible object: status 'new', absent keys defaulted. */
  function RequestFor(f: Fields): (req: AddBookRequest)
    requires f.title.Some? && f.price.Some?
    ensures req.title == f.title.value && req.price == f.price.value
    ensures req.status == "new"
    ensures f.authors.None? ==> req.authorIds == [1]
    ensures f.authors.Some? ==> req.authorIds == f.authors.value
    ensures f.categoryId.None? ==> req.categoryId == 1
    ensures f.categoryId.Some? ==> req.categoryId == f.categoryId.value
  {
    AddBookRequest(
      f.title.value, f.price.value, ImportStatus,
      match f.categoryId case Some(c) => c case None => DefaultCategory,
      match f.authors case Some(a) => a case None => DefaultAuthors)
  }

  /** The add-book calls the import issues, in list order, one per eligible element. */
  function Requests(items: seq<Element>): (reqs: seq<AddBookRequest>)
    ensures |reqs| == CountEligible(items)
    ensures forall k :: 0 <= k < |reqs| ==> reqs[k].status == "new"
  {
    if items == [] then []
    else if Eligible(items[0]) then [RequestFor(items[0].fields)] + Requests(items[1..])
    else Requests(items[1..])
  }

  /** The links that committing `reqs` in order adds, the first under book id `id`. */
  function AllLinks(id: nat, reqs: seq<AddBookRequest>): (r: seq<Link>)
    ensures forall i :: 0 <= i < |r| ==> id <= r[i].bookId < id + |reqs|
    decreases |reqs|
  {
    if reqs == [] then []
    else LinksOf(id, reqs[0].authorIds) + AllLinks(id + 1, reqs[1..])
  }

  /** The tables after committing every request of `reqs`, one transaction each, in order. */
  function ApplyAll(t: Tables, reqs: seq<AddBookRequest>): (r: Tables)
    ensures r.nextId == t.nextId + |reqs|
    ensures r.authors == t.authors && r.categories == t.categories
    ensures r.links == t.links + AllLinks(t.nextId, reqs)
    decreases |reqs|
  {
    if reqs == [] then t
    else
      var t1 := Committed(t, reqs[0]);
      assert t1.links == t.links + LinksOf(t.nextId, reqs[0].authorIds) by {
        assert t1.links == t1.links[..|t.links|] + t1.links[|t.links|..];
      }
      ApplyAll(t1, reqs[1..])
  }

  /**
    Committing `reqs` from a consistent state keeps every existing row, adds
    rows only under the ids it draws, and stays consistent.
  */
  lemma {:induction false} ApplyAllKeepsRows(t: Tables, reqs: seq<AddBookRequest>)
    requires t.Valid()
    ensures ApplyAll(t, reqs).Valid()
    ensures forall id :: id in ApplyAll(t, reqs).books ==> id in t.books || t.nextId <= id < t.nextId + |reqs|
    ensures forall id :: id in t.books ==> id in ApplyAll(t, reqs).books && ApplyAll(t, reqs).books[id] == t.books[id]
    decreases |reqs|
  {
    if reqs != [] {
      ApplyAllKeepsRows(Committed(t, reqs[0]), reqs[1..]);
    }
  }

  /**
    Committing `reqs` from a consistent state adds one book per request, under
    consecutive fresh ids in request order.
  */
  lemma {:induction false} ApplyAllAddsRows(t: Tables, reqs: seq<AddBookRequest>)
    requires t.Valid()
    ensures forall id :: t.nextId <= id < t.nextId + |reqs| ==>
      id in ApplyAll(t, reqs).books && ApplyAll(t, reqs).books[id] == BookOf(reqs[id - t.nextId])
    decreases |reqs|
  {
    if reqs != [] {
      var t1 := Committed(t, reqs[0]);
      var r := ApplyAll(t1, reqs[1..]);
      assert ApplyAll(t, reqs) == r;
      ApplyAllAddsRows(t1, reqs[1..]);
      ApplyAllKeepsRows(t1, reqs[1..]);
      forall id | t.nextId <= id < t.nextId + |reqs|
        ensures id in r.books && r.books[id] == BookOf(reqs[id - t.nextId])
      {
        if id > t.nextId {
          assert reqs[1..][id - t1.nextId] == reqs[id - t.nextId];
        }
      }
    }
  }

  /**
    The loop of `process_json` from some element on: `count` transactions have
    committed so far and the next one meets `faultsAt(count)`.
  */
  function ImportFrom(t: Tables, items: seq<Element>, count: nat, faultsAt: nat -> Faults): (o: ImportOutcome)
    ensures o.result.Success? ==> o.result.value == count + CountEligible(items)
    ensures o.result.Success? ==> forall i :: 0 <= i < |items| ==> !Fatal(items[i])
    ensures o.result == Failure(NotIterable) ==> Atom in items
    ensures o.result == Failure(NoGet) ==> Container(true, true) in items
    ensures o.result.Failure? && o.result.error.Db? ==> CountEligible(items) > 0
    ensures o.result != Failure(BadJson) && o.result != Failure(NotAList)
    decreases |items|
  {
    if items == [] then ImportOutcome(t, Success(count))
    else
      match items[0]
      case Atom => ImportOutcome(t, Failure(NotIterable))
      case Container(hasTitle, hasPrice) =>
        if hasTitle && hasPrice then ImportOutcome(t, Failure(NoGet))
        else ImportFrom(t, items[1..], count, faultsAt)
      case Object(f) =>
        if f.title.Some? && f.price.Some? then
          var tx := Transact(t, RequestFor(f), faultsAt(count));
          if tx.result.Failure? then ImportOutcome(tx.tables, Failure(Db(tx.result.error)))
          else ImportFrom(tx.tables, items[1..], count + 1, faultsAt)
        else ImportFrom(t, items[1..], count, faultsAt)
  }

  /** `process_json` on a parsed document. */
  function Import(t: Tables, doc: Document, faultsAt: nat -> Faults): (o: ImportOutcome)
    ensures doc.Malformed? ==> o == ImportOutcome(t, Failure(BadJson))
    ensures doc.NotArray? ==> o == ImportOutcome(t, Failure(NotAList))
  {
    match doc
    case Malformed => ImportOutcome(t, Failure(BadJson))
    case NotArray => ImportOutcome(t, Failure(NotAList))
    case Array(items) => ImportFrom(t, items, 0, faultsAt)
  }

  /**
    A successful import returns the number of eligible elements on top of
    `count`, and leaves the tables as if each of their requests had committed
    in list order.
  */
  lemma {:induction false} ImportFromSuccess(t: Tables, items: seq<Element>, count: nat, faultsAt: nat -> Faults)
    requires ImportFrom(t, items, count, faultsAt).result.Success?
    ensures ImportFrom(t, items, count, faultsAt).result.value == count + CountEligible(items)
    ensures ImportFrom(t, items, count, faultsAt).tables == ApplyAll(t, Requests(items))
    decreases |items|
  {
    if items != [] {
      match items[0]
      case Atom =>
      case Container(_, _) =>
        ImportFromSuccess(t, items[1..], count, faultsAt);
      case Object(f) =>
        if f.title.Some? && f.price.Some? {
          var tx := Transact(t, RequestFor(f), faultsAt(count));
          ImportFromSuccess(tx.tables, items[1..], count + 1, faultsAt);
        } else {
          ImportFromSuccess(t, items[1..], count, faultsAt);
        }
    }
  }

  /** The count `process_json` returns is the number of elements with both a title and a price. */
  lemma ImportCountsEligible(t: Tables, items: seq<Element>, faultsAt: nat -> Faults)
    requires Import(t, Array(items), faultsAt).result.Success?
    ensures Import(t, Array(items), faultsAt).result.value == CountEligible(items)
    ensures Import(t, Array(items), faultsAt).tables == ApplyAll(t, Requests(items))
  {
    ImportFromSuccess(t, items, 0, faultsAt);
  }

  /**
    The outcome `o` leaves the tables as they are after the first `k` of `reqs`
    committed, the j-th call having met `faultsAt(count + j)` and been accepted.
    A returned count means all of them were; a raised add-book error is what
    the call numbered `k` raised, on the tables the first `k` left.
  */
  ghost predicate CommitsFirst(
    t: Tables, reqs: seq<AddBookRequest>, count: nat, faultsAt: nat -> Faults, o: ImportOutcome, k: nat)
  {
    && k <= |reqs|
    && o.tables == ApplyAll(t, reqs[..k])
    && (forall j :: 0 <= j < k ==> Transact(ApplyAll(t, reqs[..j]), reqs[j], faultsAt(count + j)).result.Success?)
    && (o.result.Success? ==> k == |reqs|)
    && (o.result.Failure? && o.result.error.Db? ==>
          k < |reqs| && Transact(o.tables, reqs[k], faultsAt(count + k)).result == Failure(o.result.error.cause))
  }

  /** Committing the first `j` of `reqs` is committing the first, then `j - 1` of the rest. */
  lemma ApplyAllPrefix(t: Tables, reqs: seq<AddBookRequest>, j: nat)
    requires 1 <= j <= |reqs|
    ensures ApplyAll(t, reqs[..j]) == ApplyAll(Committed(t, reqs[0]), reqs[1..][..j - 1])
  {
    assert reqs[..j][0] == reqs[0];
    assert reqs[..j][1..] == reqs[1..][..j - 1];
  }

  /** A request accepted on `t`, followed by `k` more committed ones, is `k + 1` committed from `t`. */
  lemma CommitsFirstStep(
    t: Tables, reqs: seq<AddBookRequest>, count: nat, faultsAt: nat -> Faults, o: ImportOutcome, k: nat)
    requires reqs != []
    requires Transact(t, reqs[0], faultsAt(count)).result.Success?
    requires CommitsFirst(Committed(t, reqs[0]), reqs[1..], count + 1, faultsAt, o, k)
    ensures CommitsFirst(t, reqs, count, faultsAt, o, k + 1)
  {
    var rest := reqs[1..];
    ApplyAllPrefix(t, reqs, k + 1);
    forall j | 0 <= j < k + 1
      ensures Transact(ApplyAll(t, reqs[..j]), reqs[j], faultsAt(count + j)).result.Success?
    {
      if j == 0 {
        assert reqs[..0] == [];
      } else {
        ApplyAllPrefix(t, reqs, j);
        assert reqs[j] == rest[j - 1];
        assert count + j == count + 1 + (j - 1);
      }
    }
    if o.result.Failure? && o.result.error.Db? {
      assert reqs[k + 1] == rest[k];
    }
  }

  /**
    Whatever the outcome, the import has committed a prefix of its requests,
    each in its own transaction, and nothing undoes them when it raises.
  */
  lemma {:induction false} ImportFromCommitsPrefix(t: Tables, items: seq<Element>, count: nat, faultsAt: nat -> Faults)
    ensures exists k :: CommitsFirst(t, Requests(items), count, faultsAt, ImportFrom(t, items, count, faultsAt), k)
    decreases |items|
  {
    var reqs := Requests(items);
    var o := ImportFrom(t, items, count, faultsAt);
    if items == [] {
      assert CommitsFirst(t, reqs, count, faultsAt, o, 0);
    } else {
      match items[0]
      case Atom =>
        assert CommitsFirst(t, reqs, count, faultsAt, o, 0);
      case Container(hasTitle, hasPrice) =>
        if hasTitle && hasPrice {
          assert CommitsFirst(t, reqs, count, faultsAt, o, 0);
        } else {
          ImportFromCommitsPrefix(t, items[1..], count, faultsAt);
          var k: nat :| CommitsFirst(t, Requests(items[1..]), count, faultsAt, o, k);
          assert CommitsFirst(t, reqs, count, faultsAt, o, k);
        }
      case Object(f) =>
        if f.title.Some? && f.price.Some? {
          var tx := Transact(t, RequestFor(f), faultsAt(count));
          if tx.result.Failure? {
            assert reqs[..0] == [];
            assert CommitsFirst(t, reqs, count, faultsAt, o, 0);
          } else {
            ImportFromCommitsPrefix(tx.tables, items[1..], count + 1, faultsAt);
            var k: nat :| CommitsFirst(tx.tables, Requests(items[1..]), count + 1, faultsAt, o, k);
            assert reqs[0] == RequestFor(f) && reqs[1..] == Requests(items[1..]);
            CommitsFirstStep(t, reqs, count, faultsAt, o, k);
          }
        } else {
          ImportFromCommitsPrefix(t, items[1..], count, faultsAt);
          var k: nat :| CommitsFirst(t, Requests(items[1..]), count, faultsAt, o, k);
          assert CommitsFirst(t, reqs, count, faultsAt, o, k);
        }
    }
  }

  /**
    A returned count means every add-book call the import issued was accepted,
    the j-th one under `faultsAt(j)` on the tables its predecessors left.
  */
  lemma ImportSuccessMeansAllAccepted(t: Tables, items: seq<Element>, faultsAt: nat -> Faults)
    requires Import(t, Array(items), faultsAt).result.Success?
    ensures forall j :: 0 <= j < |Requests(items)| ==>
      Transact(ApplyAll(t, Requests(items)[..j]), Requests(items)[j], faultsAt(j)).result.Success?
  {
    ImportFromCommitsPrefix(t, items, 0, faultsAt);
    var o := ImportFrom(t, items, 0, faultsAt);
    var k: nat :| CommitsFirst(t, Requests(items), 0, faultsAt, o, k);
  }

  /**
    The elements the loop acts on, in order: those that are neither eligible
    nor fatal are dropped, and the calls issued stay the same.
  */
  function DropInert(items: seq<Element>): (r: seq<Element>)
    ensures |r| <= |items|
    ensures forall e :: e in r ==> e in items && (Eligible(e) || Fatal(e))
    ensures forall e :: e in items && (Eligible(e) || Fatal(e)) ==> e in r
    ensures Requests(r) == Requests(items)
  {
    if items == [] then []
    else
      var rest := DropInert(items[1..]);
      assert items == [items[0]] + items[1..];
      if Eligible(items[0]) || Fatal(items[0]) then
        var r := [items[0]] + rest;
        assert r[0] == items[0] && r[1..] == rest;
        r
      else rest
  }

  /**
    Objects lacking a title or a price, and strings or lists not holding both
    keys, are skipped silently: removing them changes neither the tables, nor
    the count, nor the error. Numbers, booleans and null (a TypeError) and
    strings or lists holding both keys (an AttributeError) are kept, since they
    make the import raise.
  */
  lemma {:induction false} SkippedElementsAreInert(t: Tables, items: seq<Element>, count: nat, faultsAt: nat -> Faults)
    ensures ImportFrom(t, items, count, faultsAt) == ImportFrom(t, DropInert(items), count, faultsAt)
    decreases |items|
  {
    if items != [] {
      var rest := DropInert(items[1..]);
      if Eligible(items[0]) || Fatal(items[0]) {
        assert DropInert(items) == [items[0]] + rest;
        assert DropInert(items)[1..] == rest;
        match items[0]
        case Atom =>
        case Container(_, _) =>
        case Object(f) =>
          var tx := Transact(t, RequestFor(f), faultsAt(count));
          SkippedElementsAreInert(tx.tables, items[1..], count + 1, faultsAt);
      } else {
        SkippedElementsAreInert(t, items[1..], count, faultsAt);
      }
    }
  }

  /** When the store refuses nothing, the import fails exactly when some element is fatal. */
  lemma {:induction false} FaultFreeImportSucceedsIff(t: Tables, items: seq<Element>, count: nat)
    ensures ImportFrom(t, items, count, _ => NoFaults).result.Success? <==>
      forall i :: 0 <= i < |items| ==> !Fatal(items[i])
    decreases |items|
  {
    if items != [] {
      var tx := if Eligible(items[0]) then Transact(t, RequestFor(items[0].fields), NoFaults) else TxOutcome(t, Success(true));
      var next := if Eligible(items[0]) then count + 1 else count;
      FaultFreeImportSucceedsIff(tx.tables, items[1..], next);
      assert forall i :: 1 <= i < |items| ==> items[i] == items[1..][i - 1];
      assert (forall i :: 0 <= i < |items| ==> !Fatal(items[i])) <==>
        !Fatal(items[0]) && forall i :: 0 <= i < |items[1..]| ==> !Fatal(items[1..][i]);
    }
  }

  /** The calls are issued in list order: the requests of a concatenation are concatenated. */
  lemma {:induction false} RequestsInListOrder(a: seq<Element>, b: seq<Element>)
    ensures Requests(a + b) == Requests(a) + Requests(b)
    decreases |a|
  {
    if a != [] {
      assert (a + b)[0] == a[0];
      assert (a + b)[1..] == a[1..] + b;
      RequestsInListOrder(a[1..], b);
      if Eligible(a[0]) {
        var x := RequestFor(a[0].fields);
        assert Requests(a + b) == [x] + (Requests(a[1..]) + Requests(b));
        assert Requests(a) == [x] + Requests(a[1..]);
      } else {
        assert Requests(a + b) == Requests(a[1..] + b);
      }
    } else {
      assert a + b == b;
    }
  }

  /**
    The example document `[{"title":"A","price":1},{"price":2},{"title":"B","price":3,"authors":[9]}]`
    imports two books when the store refuses nothing.
  */
  lemma ExampleImportCountsTwo(t: Tables)
    ensures Import(t, Array([
              Object(Fields(Some("A"), Some(1.0), None, None)),
              Object(Fields(None, Some(2.0), None, None)),
              Object(Fields(Some("B"), Some(3.0), Some([9]), None))]), _ => NoFaults).result == Success(2)
  {
  }

  /**
    There is no outer transaction: when the second of two eligible elements
    fails to connect, the import raises, yet the first book stays committed.
  */
  lemma FailedImportKeepsEarlierBooks(t: Tables)
    requires t.Valid()
    ensures var o := Import(t, Array([
                       Object(Fields(Some("A"), Some(1.0), None, None)),
                       Object(Fields(Some("B"), Some(2.0), None, None))]),
                     k => if k == 0 then NoFaults else Faults(true, false, {}, false));
      && o.result == Failure(Db(ConnectFailed))
      && t.nextId in o.tables.books
      && o.tables.books[t.nextId] == Book("A", 1.0, "new", 1)
  {
  }

  /** The import service and the repository it writes through. */
  class ImportService {
    const bookDao: Database

    constructor (bookDao: Database)
      ensures this.bookDao == bookDao
    {
      this.bookDao := bookDao;
    }

    /**
      `process_json`: reject a document that is not a list, then issue one
      add-book transaction per element with a title and a price, counting them.
    */
    method ProcessJson(doc: Document, faultsAt: nat -> Faults) returns (result: Result<nat, ImportError>)
      requires bookDao.Valid()
      modifies bookDao
      ensures bookDao.Valid()
      ensures var o := Import(old(bookDao.Snapshot()), doc, faultsAt);
        bookDao.Snapshot() == o.tables && result == o.result
    {
      var items;
      match doc {
        case Malformed => return Failure(BadJson);
        case NotArray => return Failure(NotAList);
        case Array(elements) => items := elements;
      }
      var count := 0;
      var i := 0;
      while i < |items|
        invariant 0 <= i <= |items|
        invariant bookDao.Valid()
        invariant ImportFrom(bookDao.Snapshot(), items[i..], count, faultsAt)
               == ImportFrom(old(bookDao.Snapshot()), items, 0, faultsAt)
      {
        assert items[i..][0] == items[i] && items[i..][1..] == items[i + 1..];
        match items[i] {
          case Atom =>
            return Failure(NotIterable);
          case Container(hasTitle, hasPrice) =>
            if hasTitle && hasPrice {
              return Failure(NoGet);
            }
          case Object(f) =>
            if f.title.Some? && f.price.Some? {
              var authors := match f.authors case Some(a) => a case None => DefaultAuthors;
              var categoryId := match f.categoryId case Some(c) => c case None => DefaultCategory;
              ghost var tx := Transact(bookDao.Snapshot(), RequestFor(f), faultsAt(count));
              assert RequestFor(f) == AddBookRequest(f.title.value, f.price.value, ImportStatus, categoryId, authors);
              var r := bookDao.AddBookTransaction(f.title.value, f.price.value, ImportStatus, categoryId,
                                                  authors, faultsAt(count));
              assert bookDao.Snapshot() == tx.tables && r == tx.result;
              if r.Failure? {
                return Failure(Db(r.error));
              }
              count := count + 1;
            }
        }
        i := i + 1;
      }
      return Success(count);
    }
  }
}
