/**
 The book API of main.py: an in-memory table from caller-chosen integer ids to
 book records, and the four handlers that list, create, update and delete its
 entries.

 Each handler's effect on the table is first stated as a pure transition
 (Listed, Created, Updated, Removed) whose contract says what the handler
 promises for one id and what it leaves alone. The class BookStore holds the
 table as a field that its handler methods update in place, each proved to
 follow its transition. Serve runs a sequence of requests against a table, the
 way the process serves them one after another; the lemmas about it state what
 holds across many requests (ids are reusable, a second create fails, ...).
 */
module LivrosApi {

  /** A book as validated from the request body: `nome_livro`, `autor_livro`, `ano_livro`. */
  datatype Livro = Livro(nome: string, autor: string, ano: int)

  /** The table: id -> the record stored by `model_dump()`. */
  type Table = map<int, Livro>

  /**
   What a handler hands back: a `{"message": ...}` body, the `{"livros": ...}`
   body of a non-empty listing, or an HTTP error with its status and detail.
   */
  datatype Response =
    | Message(text: string)
    | Livros(livros: Table)
    | HttpError(status: int, detail: string)

  const BadRequest: int := 400
  const NotFound: int := 404

  const NenhumLivro: string := "Não existe nenhum livro!"
  const LivroJaExiste: string := "Esse livro já existe, meu parceiro!"
  const LivroCriado: string := "O livro foi criado com sucesso!"
  const LivroNaoEncontrado: string := "Esse livro não foi encontrado!"
  const LivroAtualizado: string := "As informações do seu livro foram atualizadas com sucesso!"
  const LivroDeletado: string := "Seu livro foi deletado com sucesso!"

  /** A table after a mutating handler, with the response it returned. */
  datatype Handled = Handled(table: Table, response: Response)

  /** True iff `t` and `u` agree on key `k`: both lack it, or both map it to the same record. */
  predicate SameEntry(t: Table, u: Table, k: int)
  {
    (k !in t && k !in u) || (k in t && k in u && t[k] == u[k])
  }

  // ---------------------------------------------------------------------------
  // The four handlers as transitions of the table
  // ---------------------------------------------------------------------------

  /** `get_livros`: the fixed message when nothing is stored, the whole table otherwise. */
  function Listed(t: Table): (r: Response)
    ensures r == Message(NenhumLivro) <==> |t| == 0
    ensures |t| != 0 ==> r.Livros? && r.livros == t
  {
    if t == map[] then Message(NenhumLivro) else Livros(t)
  }

  /** `post_livros`: store `l` under `id` only when `id` is absent. */
  function Created(t: Table, id: int, l: Livro): (h: Handled)
    ensures h.response.HttpError? <==> id in t
    ensures id in t ==> h.table == t && h.response == HttpError(BadRequest, LivroJaExiste)
    ensures id !in t ==> h.response == Message(LivroCriado)
    ensures id !in t ==> h.table.Keys == t.Keys + {id} && h.table[id] == l
    ensures forall k :: k != id ==> SameEntry(t, h.table, k)
  {
    if id in t then Handled(t, HttpError(BadRequest, LivroJaExiste))
    else Handled(t[id := l], Message(LivroCriado))
  }

  /**
   `put_livros`: replace the whole record under `id` only when `id` is present.
   The source tests `not meu_livrozinhos.get(id)`, i.e. truthiness; the stored
   values are always the three-key dicts of `model_dump()`, never falsy, so the
   test is exactly `id !in t`.
   */
  function Updated(t: Table, id: int, l: Livro): (h: Handled)
    ensures h.response.HttpError? <==> id !in t
    ensures id !in t ==> h.table == t && h.response == HttpError(NotFound, LivroNaoEncontrado)
    ensures id in t ==> h.response == Message(LivroAtualizado)
    ensures id in t ==> h.table.Keys == t.Keys && h.table[id] == l
    ensures forall k :: k != id ==> SameEntry(t, h.table, k)
  {
    if id !in t then Handled(t, HttpError(NotFound, LivroNaoEncontrado))
    else Handled(t[id := l], Message(LivroAtualizado))
  }

  /** `delete_livro`: remove the entry for `id` only when `id` is present. */
  function Removed(t: Table, id: int): (h: Handled)
    ensures h.response.HttpError? <==> id !in t
    ensures id !in t ==> h.table == t && h.response == HttpError(NotFound, LivroNaoEncontrado)
    ensures id in t ==> h.response == Message(LivroDeletado)
    ensures h.table.Keys == t.Keys - {id}
    ensures forall k :: k != id ==> SameEntry(t, h.table, k)
  {
    if id !in t then Handled(t, HttpError(NotFound, LivroNaoEncontrado))
    else Handled(t - {id}, Message(LivroDeletado))
  }

  // ---------------------------------------------------------------------------
  // The table as the module-level dictionary, updated in place by the handlers
  // ---------------------------------------------------------------------------

  class BookStore {
    /** `meu_livrozinhos` */
    var livros: Table

    /** The table starts empty when the process starts. */
    constructor ()
      ensures livros == map[]
    {
      livros := map[];
    }

    method GetLivros() returns (r: Response)
      ensures r == Listed(livros)
    {
      if |livros| == 0 {
        r := Message(NenhumLivro);
      } else {
        r := Livros(livros);
      }
    }

    method PostLivros(id: int, livro: Livro) returns (r: Response)
      modifies this
      ensures Handled(livros, r) == Created(old(livros), id, livro)
    {
      if id in livros {
        r := HttpError(BadRequest, LivroJaExiste);
      } else {
        livros := livros[id := livro];
        r := Message(LivroCriado);
      }
    }

    method PutLivros(id: int, livro: Livro) returns (r: Response)
      modifies this
      ensures Handled(livros, r) == Updated(old(livros), id, livro)
    {
      // `if not meu_livro` on the looked-up value: a stored record is never
      // falsy, so only a missing id takes the error branch.
      if id !in livros {
        r := HttpError(NotFound, LivroNaoEncontrado);
      } else {
        livros := livros[id := livro];
        r := Message(LivroAtualizado);
      }
    }

    method DeleteLivro(id: int) returns (r: Response)
      modifies this
      ensures Handled(livros, r) == Removed(old(livros), id)
    {
      if id !in livros {
        r := HttpError(NotFound, LivroNaoEncontrado);
      } else {
        livros := livros - {id};
        r := Message(LivroDeletado);
      }
    }
  }

  // ---------------------------------------------------------------------------
  // Sequences of requests
  // ---------------------------------------------------------------------------

  /** The four routes that touch the table, with their path/query id and body. */
  datatype Request =
    | Get
    | Post(id: int, livro: Livro)
    | Put(id: int, livro: Livro)
    | Delete(id: int)

  /** True iff `req` names id `k`. */
  predicate Mentions(req: Request, k: int)
  {
    !req.Get? && req.id == k
  }

  /** A request passed to the handler its route names; a listing leaves the table as it is. */
  function Handle(t: Table, req: Request): Handled
  {
    match req
    case Get => Handled(t, Listed(t))
    case Post(id, l) => Created(t, id, l)
    case Put(id, l) => Updated(t, id, l)
    case Delete(id) => Removed(t, id)
  }

  /** The table and the responses after serving `reqs` in order, starting from `t`. */
  datatype Served = Served(table: Table, responses: seq<Response>)

  function Serve(t: Table, reqs: seq<Request>): (s: Served)
    ensures |s.responses| == |reqs|
    decreases |reqs|
  {
    if reqs == [] then Served(t, [])
    else
      var h := Handle(t, reqs[0]);
      var rest := Serve(h.table, reqs[1..]);
      Served(rest.table, [h.response] + rest.responses)
  }

  /** The response to the last of a non-empty sequence of requests. */
  function LastResponse(t: Table, reqs: seq<Request>): Response
    requires reqs != []
  {
    Serve(t, reqs).responses[|reqs| - 1]
  }

  /**
   The first request is served on `t`, the rest on the table it leaves. Dafny
   proves this unaided; stating it as a lemma keeps ServeAppend's proof small
   and stable across solver seeds.
   */
  lemma ServeCons(t: Table, reqs: seq<Request>)
    requires reqs != []
    ensures var h := Handle(t, reqs[0]);
      && Serve(t, reqs).table == Serve(h.table, reqs[1..]).table
      && Serve(t, reqs).responses == [h.response] + Serve(h.table, reqs[1..]).responses
  {
  }

  /** Serving `a + b` is serving `a`, then serving `b` from where `a` left the table. */
  lemma {:induction false} ServeAppend(t: Table, a: seq<Request>, b: seq<Request>)
    ensures Serve(t, a + b).table == Serve(Serve(t, a).table, b).table
    ensures Serve(t, a + b).responses == Serve(t, a).responses + Serve(Serve(t, a).table, b).responses
    decreases |a|
  {
    if a == [] {
      assert a + b == b;
    } else {
      var h := Handle(t, a[0]);
      var ab := a + b;
      assert ab[0] == a[0] && ab[1..] == a[1..] + b;
      ServeCons(t, a);
      ServeCons(t, ab);
      ServeAppend(h.table, a[1..], b);
      var mid := Serve(h.table, a[1..]);
      var rest := Serve(mid.table, b);
      assert [h.response] + (mid.responses + rest.responses)
          == ([h.response] + mid.responses) + rest.responses;
    }
  }

  /** Requests that never name `k` leave the entry of `k` as it was. */
  lemma {:induction false} ServeFrame(t: Table, reqs: seq<Request>, k: int)
    requires forall i :: 0 <= i < |reqs| ==> !Mentions(reqs[i], k)
    ensures SameEntry(t, Serve(t, reqs).table, k)
    decreases |reqs|
  {
    if reqs != [] {
      assert !Mentions(reqs[0], k);
      ServeFrame(Handle(t, reqs[0]).table, reqs[1..], k);
    }
  }

  /** Once present, an id stays present until a request deletes it. */
  lemma {:induction false} PresenceStable(t: Table, reqs: seq<Request>, id: int)
    requires id in t
    requires forall i :: 0 <= i < |reqs| ==> reqs[i] != Delete(id)
    ensures id in Serve(t, reqs).table
    decreases |reqs|
  {
    if reqs != [] {
      assert reqs[0] != Delete(id);
      PresenceStable(Handle(t, reqs[0]).table, reqs[1..], id);
    }
  }

  /** Once absent, an id stays absent until a request creates it. */
  lemma {:induction false} AbsenceStable(t: Table, reqs: seq<Request>, id: int)
    requires id !in t
    requires forall i :: 0 <= i < |reqs| ==> !(reqs[i].Post? && reqs[i].id == id)
    ensures id !in Serve(t, reqs).table
    decreases |reqs|
  {
    if reqs != [] {
      assert !(reqs[0].Post? && reqs[0].id == id);
      AbsenceStable(Handle(t, reqs[0]).table, reqs[1..], id);
    }
  }

  /**
   Creating an id, then any requests that do not delete it, then creating it
   again: the second create fails with 400 whatever its payload.
   */
  lemma CreateTwiceFails(t: Table, id: int, l: Livro, between: seq<Request>, l2: Livro)
    requires forall i :: 0 <= i < |between| ==> between[i] != Delete(id)
    ensures LastResponse(t, [Post(id, l)] + between + [Post(id, l2)]) == HttpError(BadRequest, LivroJaExiste)
  {
    var first := Serve(t, [Post(id, l)]);
    assert [Post(id, l)][1..] == [];
    assert Serve(Created(t, id, l).table, []) == Served(Created(t, id, l).table, []);
    assert id in first.table;
    PresenceStable(first.table, between, id);
    ServeAppend(t, [Post(id, l)], between);
    ServeAppend(t, [Post(id, l)] + between, [Post(id, l2)]);
  }

  /**
   Deleting an id (whether or not it was there), then any requests that do not
   create it: an update or a delete of that id fails with 404.
   */
  lemma DeletedStaysNotFound(t: Table, id: int, between: seq<Request>, last: Request)
    requires forall i :: 0 <= i < |between| ==> !(between[i].Post? && between[i].id == id)
    requires last.Put? || last.Delete?
    requires last.id == id
    ensures LastResponse(t, [Delete(id)] + between + [last]) == HttpError(NotFound, LivroNaoEncontrado)
  {
    var first := Serve(t, [Delete(id)]);
    assert [Delete(id)][1..] == [];
    assert Serve(Removed(t, id).table, []) == Served(Removed(t, id).table, []);
    assert id !in first.table;
    AbsenceStable(first.table, between, id);
    ServeAppend(t, [Delete(id)], between);
    ServeAppend(t, [Delete(id)] + between, [last]);
  }

  /** On a fresh table, an id that no request has created is not found by update or delete. */
  lemma NeverCreatedNotFound(reqs: seq<Request>, last: Request)
    requires last.Put? || last.Delete?
    requires forall i :: 0 <= i < |reqs| ==> !(reqs[i].Post? && reqs[i].id == last.id)
    ensures LastResponse(map[], reqs + [last]) == HttpError(NotFound, LivroNaoEncontrado)
  {
    AbsenceStable(map[], reqs, last.id);
    ServeAppend(map[], reqs, [last]);
  }

  /** Ids are reusable: deleting a present id and creating it again succeeds and stores the new record. */
  lemma DeleteThenCreate(t: Table, id: int, l: Livro)
    requires id in t
    ensures Serve(t, [Delete(id), Post(id, l)]).responses == [Message(LivroDeletado), Message(LivroCriado)]
    ensures id in Serve(t, [Delete(id), Post(id, l)]).table
    ensures Serve(t, [Delete(id), Post(id, l)]).table[id] == l
  {
    var reqs := [Delete(id), Post(id, l)];
    var h := Removed(t, id);
    assert reqs[1..] == [Post(id, l)];
    assert Serve(h.table, reqs[1..]) == Served(Created(h.table, id, l).table, [Message(LivroCriado)]);
  }

  /**
   Ids are fully reusable: delete an id, then send any requests that do not
   create it; a create of that id then succeeds and stores the new record.
   */
  lemma RecreateAfterDelete(t: Table, id: int, between: seq<Request>, l: Livro)
    requires forall i :: 0 <= i < |between| ==> !(between[i].Post? && between[i].id == id)
    ensures var s := Serve(t, [Delete(id)] + between + [Post(id, l)]);
      && s.responses[|s.responses| - 1] == Message(LivroCriado)
      && id in s.table && s.table[id] == l
  {
    var first := Serve(t, [Delete(id)]);
    assert [Delete(id)][1..] == [];
    assert Serve(Removed(t, id).table, []) == Served(Removed(t, id).table, []);
    assert id !in first.table;
    AbsenceStable(first.table, between, id);
    ServeAppend(t, [Delete(id)], between);
    var mid := Serve(t, [Delete(id)] + between);
    ServeAppend(t, [Delete(id)] + between, [Post(id, l)]);
    assert [Post(id, l)][1..] == [];
    assert Serve(Created(mid.table, id, l).table, []) == Served(Created(mid.table, id, l).table, []);
  }

  /** The number of responses in `rs` that are exactly `Message(text)`. */
  function CountMessages(rs: seq<Response>, text: string): nat
  {
    if rs == [] then 0
    else (if rs[0] == Message(text) then 1 else 0) + CountMessages(rs[1..], text)
  }

  lemma {:induction false} CountMessagesAppend(a: seq<Response>, b: seq<Response>, text: string)
    ensures CountMessages(a + b, text) == CountMessages(a, text) + CountMessages(b, text)
  {
    if a == [] {
      assert a + b == b;
    } else {
      assert (a + b)[1..] == a[1..] + b;
      CountMessagesAppend(a[1..], b, text);
    }
  }

  /** Every successful create adds one entry and every successful delete removes one; nothing else changes the size. */
  lemma {:induction false} ServeSize(t: Table, reqs: seq<Request>)
    ensures var s := Serve(t, reqs);
      |s.table| + CountMessages(s.responses, LivroDeletado)
        == |t| + CountMessages(s.responses, LivroCriado)
    decreases |reqs|
  {
    if reqs != [] {
      var h := Handle(t, reqs[0]);
      ServeSize(h.table, reqs[1..]);
      var rest := Serve(h.table, reqs[1..]);
      CountMessagesAppend([h.response], rest.responses, LivroDeletado);
      CountMessagesAppend([h.response], rest.responses, LivroCriado);
      if h.response == Message(LivroCriado) {
        assert reqs[0].Post? && reqs[0].id !in t;
        assert h.table.Keys == t.Keys + {reqs[0].id};
      } else if h.response == Message(LivroDeletado) {
        assert reqs[0].Delete? && reqs[0].id in t;
        assert h.table.Keys == t.Keys - {reqs[0].id};
      } else {
        assert h.table.Keys == t.Keys;
      }
    }
  }
}
