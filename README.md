# Book API (livros) — Dafny model

The service keeps its books in one module-level dictionary, `meu_livrozinhos`. It maps an
integer id chosen by the caller to a record with the fields `nome_livro`, `autor_livro` and
`ano_livro`. Four HTTP handlers work on that dictionary:

- `get_livros` lists it. It returns a fixed "no books" message when the table is empty.
- `post_livros` creates an entry. It fails with 400 when the id is already present.
- `put_livros` replaces a whole record. It fails with 404 when the id is absent.
- `delete_livro` removes an entry. It fails with 404 when the id is absent.

`livros.dfy` (module `LivrosApi`) models this in four parts:

- `Livro`, `Table` and `Response` are the record, the table and the handler replies. A reply is a
  `{"message": ...}` body, the `{"livros": ...}` body, or an HTTP error with status and detail.
- `Listed`, `Created`, `Updated` and `Removed` are the four handlers as pure transitions of the
  table. Their contracts state what happens to the named id, what the response is, and that every
  other id keeps its entry.
- `BookStore` is a class whose field `livros` is the dictionary. Its handler methods update the
  field in place, and each one is proved to follow its transition.
- `Serve` runs a sequence of requests from a given table, the way the process serves them one after
  another. Lemmas about it state the properties that span several requests: ids are reusable, a
  second create fails, an id that was deleted or never created is not found, and the table size
  tracks successful creates and deletes.

The update handler tests `if not meu_livro` on the result of `.get(id)`, not `id in ...`. The stored
values are always the non-empty three-key dicts produced by `model_dump()`, so they are never falsy.
The model therefore writes this test as `id !in livros`.

`Livro` declares `nome_livro` and `autor_livro` as plain `str` (main.py:31-32), so any string,
including the empty one, is accepted and stored.

## Model

| member | source | states |
|---|---|---|
| `LivrosApi.Listed` | main.py:45-53 | The reply is the "Não existe nenhum livro!" message exactly when the table is empty; otherwise it is the `livros` body holding the whole table |
| `LivrosApi.Created` | main.py:58-71 | Fails exactly when the id is present, then with 400 "Esse livro já existe, meu parceiro!" and the table unchanged; otherwise adds exactly that key, stores exactly the given record, and replies "O livro foi criado com sucesso!"; every other id keeps its entry |
| `LivrosApi.Updated` | main.py:78-95 | Fails exactly when the id is absent, then with 404 "Esse livro não foi encontrado!" and the table unchanged; otherwise keeps the key set, stores the new record in place of the whole old one, and replies with the update message; every other id keeps its entry |
| `LivrosApi.Removed` | main.py:100-112 | Fails exactly when the id is absent, then with 404 "Esse livro não foi encontrado!" and the table unchanged; otherwise replies "Seu livro foi deletado com sucesso!"; the key set loses exactly that id and every other id keeps its entry |
| `LivrosApi.BookStore.constructor` | main.py:28 | The table starts empty |
| `LivrosApi.BookStore.GetLivros` | main.py:45-53 | Returns the listing reply of the current table and changes nothing (no modifies clause) |
| `LivrosApi.BookStore.PostLivros` | main.py:58-71 | The new table and the reply are those of `Created` on the old table |
| `LivrosApi.BookStore.PutLivros` | main.py:78-95 | The new table and the reply are those of `Updated` on the old table |
| `LivrosApi.BookStore.DeleteLivro` | main.py:100-112 | The new table and the reply are those of `Removed` on the old table |
| `LivrosApi.Serve` | main.py:45-112 | Serving a sequence of requests yields exactly one reply per request |
| `LivrosApi.ServeAppend` | main.py:28 | Because the table persists between requests, serving `a + b` equals serving `a` and then serving `b` from the table `a` left behind |
| `LivrosApi.ServeFrame` | main.py:58-112 | Requests that never name id `k` leave `k`'s entry (present with the same record, or absent) as it was |
| `LivrosApi.PresenceStable` | main.py:58-112 | A present id stays present under any requests other than a delete of that id |
| `LivrosApi.AbsenceStable` | main.py:58-112 | An absent id stays absent under any requests other than a create of that id |
| `LivrosApi.CreateTwiceFails` | main.py:61-69 | Create an id, then send any requests that do not delete it: a second create of that id fails with 400, whatever its payload |
| `LivrosApi.DeletedStaysNotFound` | main.py:78-112 | Delete an id, then send any requests that do not create it: an update or a delete of that id fails with 404 |
| `LivrosApi.NeverCreatedNotFound` | main.py:78-112 | From the empty start table, an update or a delete of an id that no earlier request created fails with 404 |
| `LivrosApi.DeleteThenCreate` | main.py:61-110 | Ids are reusable: deleting a present id and then creating it again both succeed, and the id then holds the new record |
| `LivrosApi.RecreateAfterDelete` | main.py:61-110 | Ids are fully reusable: delete an id, then send any requests that do not create it; a create of that id then replies "O livro foi criado com sucesso!" and the id holds the new record |
| `LivrosApi.ServeSize` | main.py:58-112 | After any sequence of requests, the table size is the start size plus the successful creates minus the successful deletes |

## Left out

- `hello_world` (main.py:37-40): a constant `{"Hello": "World!"}` reply that touches no state.
- FastAPI app construction, route decorators and HTTP dispatch: each handler is a method of `BookStore`, and `Handle` maps a request to its handler.
- Pydantic validation of the request body and its 422 errors: records arrive as well-typed `Livro` values.
- `HTTPException` and JSON serialisation: errors are `HttpError(status, detail)` values and bodies are `Response` values.
- Insertion order of the dictionary: the model's table is a `map`, which has no order, so the order of the listed entries is not modelled.
- `get_livros` returns the live dictionary; the model returns its value at the time of the call.
- Concurrent requests on the shared dictionary (the source has no locking): the model serves requests one at a time.
