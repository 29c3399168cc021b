/** /api/notebooks: the inventory of notebooks — list (optionally by status,
    ordered by asset tag), register a new unit, delete a unit. */
module NotebooksRoute {
  import opened Wrappers
  import opened Seqs
  import opened Ordering
  import opened JsValues
  import opened Tables

  /** The enum names the database stores for a notebook status. */
  function StatusName(st: NotebookStatus): string
  {
    match st
    case Disponivel => "DISPONIVEL"
    case EmUso => "EM_USO"
    case Manutencao => "MANUTENCAO"
  }

  /** The status a query parameter names; any other text is not a status. */
  function ParseStatus(s: string): (r: Option<NotebookStatus>)
    ensures forall st: NotebookStatus :: r == Some(st) <==> StatusName(st) == s
  {
    if s == "DISPONIVEL" then Some(Disponivel)
    else if s == "EM_USO" then Some(EmUso)
    else if s == "MANUTENCAO" then Some(Manutencao)
    else None
  }

  lemma ParseStatusName(st: NotebookStatus)
    ensures ParseStatus(StatusName(st)) == Some(st)
  {
  }

  function HasStatus(st: NotebookStatus): Notebook -> bool { (n: Notebook) => n.status == st }

  predicate PatrimonioLe(a: Notebook, b: Notebook)
  {
    LexLe(a.patrimonio, b.patrimonio)
  }

  /** A `status` parameter naming no enum value makes the query fail (500). */
  datatype ListError = InvalidStatus

  /** GET /api/notebooks[?status=…]: the notebooks, all of them when the
      parameter is absent or empty and those with that status otherwise,
      ordered by asset tag. */
  function ListNotebooks(ns: seq<Notebook>, status: Option<string>): (r: Result<seq<Notebook>, ListError>)
    ensures r.Failure? <==> TruthyText(status) && ParseStatus(status.value).None?
    ensures r.Success? ==> SortedBy(r.value, PatrimonioLe)
    ensures r.Success? && !TruthyText(status) ==> multiset(r.value) == multiset(ns)
    ensures r.Success? && TruthyText(status) ==>
      multiset(r.value) == multiset(Filter(ns, HasStatus(ParseStatus(status.value).value)))
  {
    TextKeyOrder((n: Notebook) => n.patrimonio, PatrimonioLe);
    if !TruthyText(status) then
      SortBySorted(ns, PatrimonioLe);
      Success(SortBy(ns, PatrimonioLe))
    else match ParseStatus(status.value)
      case None => Failure(InvalidStatus)
      case Some(st) =>
        SortBySorted(Filter(ns, HasStatus(st)), PatrimonioLe);
        Success(SortBy(Filter(ns, HasStatus(st)), PatrimonioLe))
  }

  /** Filtering by a status lists exactly the notebooks with that status. */
  lemma ListByStatusMembers(ns: seq<Notebook>, st: NotebookStatus, n: Notebook)
    ensures ListNotebooks(ns, Some(StatusName(st))).Success?
    ensures n in ListNotebooks(ns, Some(StatusName(st))).value <==> n in ns && n.status == st
  {
    var r := ListNotebooks(ns, Some(StatusName(st))).value;
    var f := Filter(ns, HasStatus(st));
    assert n in r <==> n in multiset(f);
    if n in ns && n.status == st {
      var k :| 0 <= k < |ns| && ns[k] == n;
      assert HasStatus(st)(ns[k]);
    }
  }

  datatype CreateError =
    | MissingFields        // 400: asset tag or model absent or empty
    | DuplicatePatrimonio  // 400: the unique asset tag is taken

  /** POST /api/notebooks: register a unit as DISPONIVEL. */
  function CreateNotebook(db: Db, patrimonio: Option<string>, modelo: Option<string>)
    : (r: (Result<Notebook, CreateError>, Db))
    ensures r.0.Failure? ==> r.1 == db
    ensures r.0 == Failure(MissingFields) <==> !TruthyText(patrimonio) || !TruthyText(modelo)
    ensures r.0 == Failure(DuplicatePatrimonio) <==>
      TruthyText(patrimonio) && TruthyText(modelo) &&
      exists k :: 0 <= k < |db.notebooks| && db.notebooks[k].patrimonio == patrimonio.value
    ensures r.0.Success? ==>
      && r.0.value == Notebook(db.nextNotebookId, patrimonio.value, modelo.value, Disponivel)
      && r.1 == db.(notebooks := db.notebooks + [r.0.value], nextNotebookId := db.nextNotebookId + 1)
  {
    if !TruthyText(patrimonio) || !TruthyText(modelo) then (Failure(MissingFields), db)
    else if Find(db.notebooks, WithPatrimonio(patrimonio.value)).Some? then (Failure(DuplicatePatrimonio), db)
    else
      var nb := Notebook(db.nextNotebookId, patrimonio.value, modelo.value, Disponivel);
      (Success(nb), db.(notebooks := db.notebooks + [nb], nextNotebookId := db.nextNotebookId + 1))
  }

  /** Registering a unit keeps the ledger consistent. */
  lemma CreateNotebookPreservesConsistency(db: Db, patrimonio: Option<string>, modelo: Option<string>)
    requires ConsistentButQuota(db)
    ensures ConsistentButQuota(CreateNotebook(db, patrimonio, modelo).1)
    ensures Consistent(db) ==> Consistent(CreateNotebook(db, patrimonio, modelo).1)
  {
    var (r, db') := CreateNotebook(db, patrimonio, modelo);
    if r.Success? {
      forall k | 0 <= k < |db.loans| ensures NotebookExists(db'.notebooks, db.loans[k].notebookId) {
        var j :| 0 <= j < |db.notebooks| && db.notebooks[j].id == db.loans[k].notebookId;
        assert db'.notebooks[j] == db.notebooks[j];
      }
      assert ActiveMeansInUse(db') by {
        forall i, j | 0 <= i < |db'.loans| && 0 <= j < |db'.notebooks| &&
                      db'.loans[i].status == Ativo && db'.loans[i].notebookId == db'.notebooks[j].id
          ensures db'.notebooks[j].status == EmUso
        {
          assert j < |db.notebooks| by {
            var m :| 0 <= m < |db.notebooks| && db.notebooks[m].id == db.loans[i].notebookId;
          }
        }
      }
    }
  }

  /** A registered unit is what a later lookup by its asset tag finds. */
  lemma CreatedNotebookIsFound(db: Db, patrimonio: Option<string>, modelo: Option<string>)
    requires CreateNotebook(db, patrimonio, modelo).0.Success?
    ensures var (r, db') := CreateNotebook(db, patrimonio, modelo);
      Find(db'.notebooks, WithPatrimonio(patrimonio.value)) == Some(r.value)
  {
    var (r, db') := CreateNotebook(db, patrimonio, modelo);
    FindIsFirst(db'.notebooks, WithPatrimonio(patrimonio.value), |db.notebooks|);
  }

  /** `delete` fails (500) for an id naming no notebook and, with the loan's
      foreign key restricting deletes, for a notebook some loan refers to. */
  datatype DeleteError = DeleteFailed

  function WithoutNotebookId(id: int): Notebook -> bool { (n: Notebook) => n.id != id }

  predicate Referenced(loans: seq<Loan>, id: int)
  {
    exists k :: 0 <= k < |loans| && loans[k].notebookId == id
  }

  /** DELETE /api/notebooks with body `{ id }`; `id` is `Number(id)`, and a
      value that is not a number names no notebook. */
  function DeleteNotebook(db: Db, id: int): (r: (Result<(), DeleteError>, Db))
    ensures r.0.Failure? <==> !NotebookExists(db.notebooks, id) || Referenced(db.loans, id)
    ensures r.0.Failure? ==> r.1 == db
    ensures r.0.Success? ==> r.1 == db.(notebooks := Filter(db.notebooks, WithoutNotebookId(id)))
  {
    if Find(db.notebooks, WithNotebookId(id)).None? || Referenced(db.loans, id) then (Failure(DeleteFailed), db)
    else (Success(()), db.(notebooks := Filter(db.notebooks, WithoutNotebookId(id))))
  }

  /** A delete removes the notebook with that id and keeps every other one. */
  lemma DeleteRemovesOnlyThatNotebook(db: Db, id: int, n: Notebook)
    requires DeleteNotebook(db, id).0.Success?
    ensures n in DeleteNotebook(db, id).1.notebooks <==> n in db.notebooks && n.id != id
  {
    if n in db.notebooks && n.id != id {
      var k :| 0 <= k < |db.notebooks| && db.notebooks[k] == n;
      assert WithoutNotebookId(id)(db.notebooks[k]);
    }
  }

  lemma DeleteKeepsUniqueNotebooks(ns: seq<Notebook>, id: int)
    requires UniqueNotebooks(ns)
    ensures UniqueNotebooks(Filter(ns, WithoutNotebookId(id)))
  {
    var ns' := Filter(ns, WithoutNotebookId(id));
    forall i, j | 0 <= i < j < |ns'| ensures ns'[i].id != ns'[j].id && ns'[i].patrimonio != ns'[j].patrimonio {
      var a, b := FilterIndices(ns, WithoutNotebookId(id), i, j);
    }
  }

  lemma DeleteKeepsLinks(db: Db, id: int)
    requires LoansLinked(db) && !Referenced(db.loans, id)
    ensures LoansLinked(db.(notebooks := Filter(db.notebooks, WithoutNotebookId(id))))
  {
    var ns' := Filter(db.notebooks, WithoutNotebookId(id));
    forall k | 0 <= k < |db.loans| ensures NotebookExists(ns', db.loans[k].notebookId) {
      var j :| 0 <= j < |db.notebooks| && db.notebooks[j].id == db.loans[k].notebookId;
      assert WithoutNotebookId(id)(db.notebooks[j]);
      var m :| 0 <= m < |ns'| && ns'[m] == db.notebooks[j];
    }
  }

  lemma DeleteKeepsInUse(db: Db, id: int)
    requires ActiveMeansInUse(db)
    ensures ActiveMeansInUse(db.(notebooks := Filter(db.notebooks, WithoutNotebookId(id))))
  {
    var ns' := Filter(db.notebooks, WithoutNotebookId(id));
    forall i, j | 0 <= i < |db.loans| && 0 <= j < |ns'| &&
                  db.loans[i].status == Ativo && db.loans[i].notebookId == ns'[j].id
      ensures ns'[j].status == EmUso
    {
      var m :| 0 <= m < |db.notebooks| && db.notebooks[m] == ns'[j];
    }
  }

  lemma DeleteKeepsKeys(db: Db, id: int)
    requires KeysBelowCounters(db)
    ensures KeysBelowCounters(db.(notebooks := Filter(db.notebooks, WithoutNotebookId(id))))
  {
  }

  /** Deleting a unit keeps the ledger consistent. */
  lemma DeleteNotebookPreservesConsistency(db: Db, id: int)
    requires ConsistentButQuota(db)
    ensures ConsistentButQuota(DeleteNotebook(db, id).1)
    ensures Consistent(db) ==> Consistent(DeleteNotebook(db, id).1)
  {
    if DeleteNotebook(db, id).0.Success? {
      DeleteKeepsUniqueNotebooks(db.notebooks, id);
      DeleteKeepsLinks(db, id);
      DeleteKeepsInUse(db, id);
      DeleteKeepsKeys(db, id);
    }
  }
}
