# Library inventory: book repository and bulk import

This project models the two pieces of sequential logic in a small Flask/MySQL
library-inventory application, and proves properties of them in Dafny.

- **The book repository** (`dao/book_dao.py`). The store is a class `BookDao.Database`
  whose fields are the tables: `books` (a map from id to row), `links` (the
  `book_authors` rows in insertion order), `nextId` (the id generator behind
  `lastrowid`), `authors` and `categories` (each category has an active flag).
  `AddBookTransaction` inserts the book under a fresh id, walks the author ids
  inserting one link each, then commits. If the connection cannot be opened,
  it raises before the transaction starts, so there is nothing to roll back.
  If the book insert, a link insert or the commit fails, it rolls back and
  raises. It is proved
  against the pure `Transact`, which states the all-or-nothing contract.
  The two reads are functions over the tables. `AllBooks` returns one row per
  book, by id strictly descending. `AuthorsAndCategories` returns every author
  and the active categories only.
- **The bulk import** (`services/import_service.py`). `ImportService.ProcessJson`
  takes a parsed document. It raises for anything that is not a list. It then
  walks the elements in order. An object without a `title` or a `price`, or a
  string or list not holding both, is skipped. A number, boolean or null
  raises a TypeError, and a string or list holding both raises an
  AttributeError; either stops the import. For every object with both keys it
  issues one add-book transaction with status `'new'`, authors `[1]` and
  category `1` when those keys are absent, and counts it. Its loop is proved against the recursive `ImportFrom`. Lemmas
  prove the following about `ImportFrom`:
  - the count equals the number of eligible elements;
  - on success, the tables are as if each request had committed in order;
  - whatever the outcome, a prefix of the requests stays committed, each of
    them accepted, and a raised add-book error is the next call's error;
  - skipped elements change nothing;
  - when the store refuses nothing, the import fails exactly when some element
    is fatal.

Where the store refuses a statement is an explicit parameter (`BookDao.Faults`).
The store does not decide this from its own data. The import takes one `Faults`
value per transaction it issues (`faultsAt(k)` for the k-th call).

Python's exceptions are values: `Result` from the `Wrappers` module, with
`BookDao.DbError` and `ImportService.ImportError` as the raised errors. JSON
parsing is outside the model. A `Document` is either a list of elements, not a
list, or malformed. An element is one of three things:
- a JSON object with optional `title`, `price`, `authors` and `category_id`;
- an atom (number, boolean or null): `'title' in` it raises a TypeError;
- a string or list: `in` is a substring test on a string and a membership
  test on a list, and `item.get` raises an AttributeError when both keys are
  found.

## Model

| member | source | states |
|---|---|---|
| `BookDao.LinksOf` | dao/book_dao.py:55-57 | the links inserted for a book: one `(bookId, authorId)` row per author id, in list order, all under the new book's id |
| `BookDao.FirstRejected` | dao/book_dao.py:56-57 | the link loop stops at the first author id whose insert fails: every earlier id is accepted and the one at the returned position is refused |
| `BookDao.Committed` | dao/book_dao.py:46-60 | a committed add-book call adds exactly one row (title, price, status, category) under an id not in the table and keeps every existing row. It appends the new links after the existing ones and keeps the tables consistent |
| `BookDao.Transact` | dao/book_dao.py:40-68 | all or nothing: the call returns True and its effect is `Committed` exactly when no statement fails; otherwise the tables are left exactly as before and the error is raised. A connection error is raised exactly when the connection fails, a book-insert error exactly when the connection succeeds and the book insert fails, and a link error names the first author id in the list that was refused. A commit error is raised exactly when every earlier statement succeeded and the commit fails |
| `BookDao.Database.AddBookTransaction` | dao/book_dao.py:40-68 | the in-place transaction (book insert, fresh id, link loop, commit or rollback) leaves the store's tables and result exactly as `Transact` prescribes, and keeps the store consistent |
| `BookDao.AuthorNames` | dao/book_dao.py:11-15 | the author names joined into a book's row are exactly those of the authors that exist and are linked to that book: each name comes from such a link, and every such link contributes its author's name |
| `BookDao.RowOf` | dao/book_dao.py:10-15 | a book's row carries its id, title, price and status. The category name is present exactly when the book's category exists (the LEFT JOIN gives NULL otherwise), and the authors are the names joined through its links |
| `BookDao.IdsBelow` | dao/book_dao.py:16-17 | the book ids below a bound, strictly descending: each is a book's id, and every book below the bound is among them |
| `BookDao.AllBooks` | dao/book_dao.py:6-23 | `get_all_books`: one row per book (every book listed, no id twice), ordered by id strictly descending, each row showing that book's fields |
| `BookDao.AuthorsAndCategories` | dao/book_dao.py:25-38 | every author is returned; a category is returned if and only if its active flag is set, with its name |
| `BookDao.NewBookListedFirst` | dao/book_dao.py:16-17 | after an add-book call commits, the new book is the first row of the list (its id is the highest) |
| `BookDao.AuthorNamesAppend` | dao/book_dao.py:14-16 | the names for a book over two runs of links are the names over each run, in order |
| `BookDao.AuthorNamesUnlinked` | dao/book_dao.py:14-16 | a book with no links gets no author names |
| `BookDao.AuthorNamesOfLinksOf` | dao/book_dao.py:55-57 | the links inserted for a book yield its authors' names in the order given |
| `BookDao.NewBookRowNamesItsAuthors` | dao/book_dao.py:53-57 | after an add-book call with existing authors commits, the new book's row in the list names exactly those authors, in the order given |
| `ImportService.CountEligible` | services/import_service.py:19 | the number of elements that carry both a title and a price never exceeds the number of elements, and is zero exactly when no element carries both |
| `ImportService.RequestFor` | services/import_service.py:20-29 | the call issued for an element passes its title and price through, with status `'new'`. Its author list is `[1]` when `authors` is absent and its category is `1` when `category_id` is absent; present values pass through unchanged |
| `ImportService.Requests` | services/import_service.py:18-29 | one add-book call per eligible element, every one with status `'new'` |
| `ImportService.AllLinks` | dao/book_dao.py:55-57 | links added by a run of commits belong to the books those commits created |
| `ImportService.ApplyAll` | services/import_service.py:23-29 | committing requests one after another advances the id generator by one per request, appends their links in order and leaves authors and categories alone |
| `ImportService.ApplyAllKeepsRows` | dao/book_dao.py:46-59 | from a consistent state, a run of commits keeps every existing row unchanged, adds rows only under the ids it draws, and stays consistent |
| `ImportService.ApplyAllAddsRows` | dao/book_dao.py:46-59 | from a consistent state, a run of commits adds one book per request under consecutive fresh ids, in request order |
| `ImportService.ImportFrom` | services/import_service.py:17-35 | the loop from some element on: a returned count is the count so far plus the eligible elements, and no element was fatal. A TypeError means a number, boolean or null is in the list, an AttributeError means a string or list holding both keys is, and an add-book error means some element was eligible. The loop never raises the parse or not-a-list errors |
| `ImportService.Import` | services/import_service.py:11-15 | a malformed document or one that is not a list raises before any add-book call, leaving the tables unchanged |
| `ImportService.ImportFromSuccess` | services/import_service.py:17-31 | a successful import returns the number of eligible elements, and its tables are those after committing their requests in list order |
| `ImportService.ImportCountsEligible` | services/import_service.py:17-31 | the count returned equals the number of elements with both a `title` and a `price` key |
| `ImportService.ImportFromCommitsPrefix` | services/import_service.py:23-35 | whatever the outcome, the first k requests stay committed, each in its own transaction, and the j-th of them was accepted under `faultsAt(count + j)` on the tables its predecessors left. A returned count means all requests were; a raised add-book error is exactly the error call k raised on the tables the first k left, and none of the k are rolled back |
| `ImportService.ImportSuccessMeansAllAccepted` | services/import_service.py:17-31 | when the import returns a count, every add-book call it issued was accepted, the j-th under `faultsAt(j)` on the tables the earlier calls left |
| `ImportService.DropInert` | services/import_service.py:19 | the elements kept are exactly those the loop acts on: every kept element is from the list and eligible or fatal, every eligible or fatal element is kept, and the add-book calls issued are unchanged |
| `ImportService.SkippedElementsAreInert` | services/import_service.py:19 | objects missing `title` or `price`, and strings or lists not holding both keys, are skipped silently: removing them changes neither the tables, nor the count, nor the error (numbers, booleans, null, and strings or lists holding both keys raise instead) |
| `ImportService.FaultFreeImportSucceedsIff` | services/import_service.py:17-31 | when the store refuses nothing, the import returns a count if and only if no element is a number, boolean, null, or a string or list mentioning both keys |
| `ImportService.RequestsInListOrder` | services/import_service.py:18 | calls are issued in list order: the calls for a concatenation are those of each part, in order |
| `ImportService.ExampleImportCountsTwo` | services/import_service.py:17-31 | the document `[{"title":"A","price":1},{"price":2},{"title":"B","price":3,"authors":[9]}]` imports two books |
| `ImportService.FailedImportKeepsEarlierBooks` | services/import_service.py:23-35 | an import whose second call fails raises, yet the first book stays committed |
| `ImportService.ImportService.ProcessJson` | services/import_service.py:9-35 | the counting loop leaves the store and returns or raises exactly as `Import` prescribes, and keeps the store consistent |

## Left out

- `app.py` (Flask routes, form parsing, flash and redirect) and `main.py` (a console loop) are user-interface plumbing.
- `update_book`, `get_book_by_id`, `delete_book`, `create_loan`, `return_book` and `get_active_loans` are called from `app.py` but are not defined in `dao/book_dao.py`. They are not part of this model, and so neither are loans or the borrowed flag.
- `config/config_loader.py`, `dao/base_dao.py` and connection and cursor handling are I/O and a foreign library. A refused connection is the `connectFails` fault.
- `dao/report_dao.py` reads a database view whose definition is not in the repository.
- JSON parsing: the document arrives parsed. `Malformed` stands for any `json.load` failure.
- JSON value types: `title` is a string, `price` a real, `authors` a list of integers and `category_id` an integer. A key that is present but holds null or a value of another type (say `"authors": 5`) is not modelled. The error such a value would raise inside the transaction is only expressible as an injected fault.
- Price is a `real`; nothing computes with it, so float rounding does not arise.
- The publication date (`NOW()`) and the `is_borrowed` column are not stored in `Book`.
- `BookDao.AuthorNames`: the SQL joins the names into one ", "-separated string (NULL when there are none) in an order it does not fix. The model gives them as a list in link order.
- `BookDao.Transact`: which statements fail is a parameter, not derived from the tables. A foreign-key or duplicate-key refusal is the `rejectedAuthors` fault. That fault rejects every occurrence of an author id, so "only the second copy of a duplicated id fails" is not expressible.
- `BookDao.Transact`: a rollback restores the id generator too, so the gap a MySQL auto-increment counter leaves after a rollback is not modelled. Ids are only promised to be fresh.
- Tables are maps keyed by primary key. The row order of a `SELECT` without `ORDER BY`, which the authors and categories reads use, is not modelled.
- The messages printed before re-raising are not modelled; the raised error is a tagged value rather than a Python exception class.
