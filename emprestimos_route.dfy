/** The loan routes of `api/emprestimos`: POST (checkout of a notebook by
    asset tag against the student's reservation for today) and GET (the loan
    list, newest first). */
module EmprestimosRoute {
  import opened Wrappers
  import opened Seqs
  import opened Ordering
  import opened JsValues
  import opened DayWindow
  import opened Tables

  /** Rejections of a checkout: 400, except `NotebookNotFound` (404). */
  datatype CheckoutError =
    | MissingFields
    | NotebookNotFound
    | NotebookInUse
    | NoReservaToday
    | QuotaReached(limit: int)

  /** The student is enrolled in the subject (`materia.alunos.some({ alunoId })`). */
  predicate Enrolled(alunos: seq<Aluno>, alunoId: int, materiaId: int)
  {
    exists i, j :: 0 <= i < |alunos| && 0 <= j < |alunos[i].materias| &&
      alunos[i].id == alunoId && alunos[i].materias[j].id == materiaId
  }

  /** A reservation the student may borrow against today. */
  predicate QualifiesToday(alunos: seq<Aluno>, alunoId: int, now: int, r: Reserva)
  {
    r.status == Ativa && InCheckoutWindow(now, r.dataAula) && Enrolled(alunos, alunoId, r.materiaId)
  }

  /** The reservation filter in calendar terms: an ATIVA reservation of one of
      the student's subjects whose class is on the UTC day of `now`, no later
      than 23:59:59.000. */
  lemma QualifiesTodayOnUtcDay(alunos: seq<Aluno>, alunoId: int, now: int, r: Reserva)
    ensures QualifiesToday(alunos, alunoId, now, r) <==>
      && r.status == Ativa
      && DayStart(r.dataAula) == DayStart(now) && r.dataAula - DayStart(r.dataAula) <= CheckoutDayEnd
      && exists i, j :: 0 <= i < |alunos| && 0 <= j < |alunos[i].materias| &&
           alunos[i].id == alunoId && alunos[i].materias[j].id == r.materiaId
  {
    CheckoutWindowIsUtcDayToLastSecond(now, r.dataAula);
  }

  function Qualifying(alunos: seq<Aluno>, alunoId: int, now: int): Reserva -> bool
  {
    (r: Reserva) => QualifiesToday(alunos, alunoId, now, r)
  }

  /** `findFirst({ where: q, orderBy: { createdAt: "desc" } })`: a satisfying
      reservation created no earlier than any other (among equal `createdAt`,
      the first in table order). */
  function MostRecent(rs: seq<Reserva>, q: Reserva -> bool): (r: Option<Reserva>)
    ensures r.None? <==> forall k :: 0 <= k < |rs| ==> !q(rs[k])
    ensures r.Some? ==> r.value in rs && q(r.value)
    ensures r.Some? ==> forall k :: 0 <= k < |rs| && q(rs[k]) ==> rs[k].createdAt <= r.value.createdAt
  {
    if |rs| == 0 then None
    else
      var rest := MostRecent(rs[1..], q);
      assert forall k :: 1 <= k < |rs| ==> rs[k] == rs[1..][k - 1];
      if !q(rs[0]) then rest
      else if rest.Some? && rest.value.createdAt > rs[0].createdAt then rest
      else Some(rs[0])
  }

  /** POST /api/emprestimos. The checks run in this order and the first one
      that fails decides the answer; on success one loan is inserted and its
      notebook set EM_USO, together. */
  function Checkout(db: Db, alunoId: Option<int>, patrimonio: Option<string>, now: int)
    : (r: (Result<Loan, CheckoutError>, Db))
    ensures r.0.Failure? ==> r.1 == db
    ensures r.0 == Failure(MissingFields) <==> !TruthyId(alunoId) || !TruthyText(patrimonio)
    ensures r.0.Success? ==>
      && r.0.value == Loan(db.nextLoanId, alunoId.value, r.0.value.notebookId, r.0.value.reservaId, now, None, Ativo)
      && r.1 == OpenLoan(db, r.0.value)
  {
    if !TruthyId(alunoId) || !TruthyText(patrimonio) then (Failure(MissingFields), db)
    else match Find(db.notebooks, WithPatrimonio(patrimonio.value))
      case None => (Failure(NotebookNotFound), db)
      case Some(nb) =>
        if nb.status != Disponivel || Find(db.loans, ActiveOnNotebook(nb.id)).Some? then
          (Failure(NotebookInUse), db)
        else match MostRecent(db.reservas, Qualifying(db.alunos, alunoId.value, now))
          case None => (Failure(NoReservaToday), db)
          case Some(reserva) =>
            if ActiveCount(db.loans, reserva.id) >= reserva.qtdNotebooks then
              (Failure(QuotaReached(reserva.qtdNotebooks)), db)
            else
              var loan := Loan(db.nextLoanId, alunoId.value, nb.id, reserva.id, now, None, Ativo);
              (Success(loan), OpenLoan(db, loan))
  }

  /** An asset tag that names no notebook is answered "not found" and changes nothing. */
  lemma CheckoutUnknownPatrimonio(db: Db, alunoId: Option<int>, patrimonio: Option<string>, now: int)
    requires TruthyId(alunoId) && TruthyText(patrimonio)
    requires forall k :: 0 <= k < |db.notebooks| ==> db.notebooks[k].patrimonio != patrimonio.value
    ensures Checkout(db, alunoId, patrimonio, now) == (Failure(NotebookNotFound), db)
  {
  }

  /** A notebook that is not DISPONIVEL, or that has an ATIVO loan, is refused
      and nothing changes. */
  lemma CheckoutRefusesBusyNotebook(db: Db, alunoId: Option<int>, patrimonio: Option<string>, now: int, k: int)
    requires TruthyId(alunoId) && TruthyText(patrimonio)
    requires UniqueNotebooks(db.notebooks)
    requires 0 <= k < |db.notebooks| && db.notebooks[k].patrimonio == patrimonio.value
    requires db.notebooks[k].status != Disponivel ||
             exists j :: 0 <= j < |db.loans| && db.loans[j].notebookId == db.notebooks[k].id && db.loans[j].status == Ativo
    ensures Checkout(db, alunoId, patrimonio, now) == (Failure(NotebookInUse), db)
  {
    var found := Find(db.notebooks, WithPatrimonio(patrimonio.value));
    assert found == Some(db.notebooks[k]) by {
      FindIsFirst(db.notebooks, WithPatrimonio(patrimonio.value), k);
    }
    if db.notebooks[k].status == Disponivel {
      var j :| 0 <= j < |db.loans| && db.loans[j].notebookId == db.notebooks[k].id && db.loans[j].status == Ativo;
      assert ActiveOnNotebook(db.notebooks[k].id)(db.loans[j]);
    }
  }

  /** Everything a successful checkout did: which notebook, which reservation,
      and that the reservation was the most recent one qualifying today and
      below its quota. */
  lemma CheckoutSuccess(db: Db, alunoId: Option<int>, patrimonio: Option<string>, now: int)
    requires Checkout(db, alunoId, patrimonio, now).0.Success?
    ensures var loan := Checkout(db, alunoId, patrimonio, now).0.value;
      && TruthyId(alunoId) && TruthyText(patrimonio)
      && (exists k :: 0 <= k < |db.notebooks| && db.notebooks[k].id == loan.notebookId &&
            db.notebooks[k].patrimonio == patrimonio.value && db.notebooks[k].status == Disponivel)
      && (forall j :: 0 <= j < |db.loans| ==> !(db.loans[j].notebookId == loan.notebookId && db.loans[j].status == Ativo))
      && (exists k :: 0 <= k < |db.reservas| && db.reservas[k].id == loan.reservaId &&
            QualifiesToday(db.alunos, loan.alunoId, now, db.reservas[k]) &&
            ActiveCount(db.loans, loan.reservaId) < db.reservas[k].qtdNotebooks &&
            (forall j :: 0 <= j < |db.reservas| && QualifiesToday(db.alunos, loan.alunoId, now, db.reservas[j]) ==>
               db.reservas[j].createdAt <= db.reservas[k].createdAt))
  {
    var nb := Find(db.notebooks, WithPatrimonio(patrimonio.value)).value;
    var reserva := MostRecent(db.reservas, Qualifying(db.alunos, alunoId.value, now)).value;
    var loan := Checkout(db, alunoId, patrimonio, now).0.value;
    assert loan.notebookId == nb.id && loan.reservaId == reserva.id;
    var k :| 0 <= k < |db.notebooks| && db.notebooks[k] == nb;
    var m :| 0 <= m < |db.reservas| && db.reservas[m] == reserva;
    forall j | 0 <= j < |db.loans|
      ensures !(db.loans[j].notebookId == loan.notebookId && db.loans[j].status == Ativo)
    {
      assert !ActiveOnNotebook(nb.id)(db.loans[j]);
    }
    forall j | 0 <= j < |db.reservas| && QualifiesToday(db.alunos, loan.alunoId, now, db.reservas[j])
      ensures db.reservas[j].createdAt <= db.reservas[m].createdAt
    {
      assert Qualifying(db.alunos, alunoId.value, now)(db.reservas[j]);
    }
  }

  /** Once the notebook checks pass — both fields given, and the notebook with
      that tag is DISPONIVEL with no ATIVO loan — the reservation decides:
      "no reservation today" exactly when none qualifies; otherwise, for the
      most recent qualifying one, "quota reached" exactly when its ATIVO loans
      are at `qtdNotebooks`, and below that the checkout succeeds with a loan
      on that notebook against that reservation. */
  lemma CheckoutAfterNotebookChecks(db: Db, alunoId: Option<int>, patrimonio: Option<string>, now: int, k: int)
    requires TruthyId(alunoId) && TruthyText(patrimonio)
    requires UniqueNotebooks(db.notebooks)
    requires 0 <= k < |db.notebooks| && db.notebooks[k].patrimonio == patrimonio.value
    requires db.notebooks[k].status == Disponivel
    requires forall j :: 0 <= j < |db.loans| ==> !(db.loans[j].notebookId == db.notebooks[k].id && db.loans[j].status == Ativo)
    ensures var res := Checkout(db, alunoId, patrimonio, now).0;
      && (res == Failure(NoReservaToday) <==>
            forall j :: 0 <= j < |db.reservas| ==> !QualifiesToday(db.alunos, alunoId.value, now, db.reservas[j]))
    ensures var (res, db') := Checkout(db, alunoId, patrimonio, now);
      var best := MostRecent(db.reservas, Qualifying(db.alunos, alunoId.value, now));
      best.Some? ==>
        && (res == Failure(QuotaReached(best.value.qtdNotebooks)) <==>
              ActiveCount(db.loans, best.value.id) >= best.value.qtdNotebooks)
        && (ActiveCount(db.loans, best.value.id) < best.value.qtdNotebooks ==>
              && res == Success(Loan(db.nextLoanId, alunoId.value, db.notebooks[k].id, best.value.id, now, None, Ativo))
              && db' == OpenLoan(db, res.value))
  {
    FindIsFirst(db.notebooks, WithPatrimonio(patrimonio.value), k);
    assert forall j :: 0 <= j < |db.loans| ==> !ActiveOnNotebook(db.notebooks[k].id)(db.loans[j]);
    var best := MostRecent(db.reservas, Qualifying(db.alunos, alunoId.value, now));
    if best.None? {
      assert forall j :: 0 <= j < |db.reservas| ==> !Qualifying(db.alunos, alunoId.value, now)(db.reservas[j]);
    }
  }

  /** A successful checkout leaves the chosen notebook EM_USO and every other
      notebook as it was. */
  lemma CheckoutFlipsOnlyItsNotebook(db: Db, alunoId: Option<int>, patrimonio: Option<string>, now: int)
    requires UniqueNotebooks(db.notebooks)
    requires Checkout(db, alunoId, patrimonio, now).0.Success?
    ensures var (r, db') := Checkout(db, alunoId, patrimonio, now);
      && |db'.notebooks| == |db.notebooks|
      && forall k :: 0 <= k < |db.notebooks| ==>
           if db.notebooks[k].patrimonio == patrimonio.value
           then db.notebooks[k].status == Disponivel && db'.notebooks[k] == db.notebooks[k].(status := EmUso)
           else db'.notebooks[k] == db.notebooks[k]
  {
    var (r, db') := Checkout(db, alunoId, patrimonio, now);
    var nb := Find(db.notebooks, WithPatrimonio(patrimonio.value)).value;
    var i :| 0 <= i < |db.notebooks| && db.notebooks[i] == nb;
    assert nb.status == Disponivel && r.value.notebookId == nb.id;
    assert db'.notebooks == SetNotebookStatus(db.notebooks, nb.id, EmUso);
    forall k | 0 <= k < |db.notebooks|
      ensures if db.notebooks[k].patrimonio == patrimonio.value
              then db.notebooks[k].status == Disponivel && db'.notebooks[k] == db.notebooks[k].(status := EmUso)
              else db'.notebooks[k] == db.notebooks[k]
    {
      if db.notebooks[k].patrimonio == patrimonio.value {
        assert k == i;
      } else {
        assert k != i && db.notebooks[k].id != nb.id;
      }
    }
  }

  /** Checkout keeps the ledger consistent; in particular it never creates a
      second ATIVO loan for a notebook (I1) and never lets a reservation's
      ATIVO loans exceed `qtdNotebooks` (I2). */
  lemma CheckoutPreservesConsistency(db: Db, alunoId: Option<int>, patrimonio: Option<string>, now: int)
    requires Consistent(db)
    ensures Consistent(Checkout(db, alunoId, patrimonio, now).1)
  {
    var (r, db') := Checkout(db, alunoId, patrimonio, now);
    if r.Success? {
      var nb := Find(db.notebooks, WithPatrimonio(patrimonio.value)).value;
      var reserva := MostRecent(db.reservas, Qualifying(db.alunos, alunoId.value, now)).value;
      var loan := r.value;
      assert loan.notebookId == nb.id && loan.reservaId == reserva.id;
      var k :| 0 <= k < |db.notebooks| && db.notebooks[k] == nb;
      var m :| 0 <= m < |db.reservas| && db.reservas[m] == reserva;
      var a, e :| 0 <= a < |db.alunos| && 0 <= e < |db.alunos[a].materias| &&
        db.alunos[a].id == alunoId.value && db.alunos[a].materias[e].id == reserva.materiaId;
      forall j | 0 <= j < |db.loans| ensures !ActiveOnNotebook(loan.notebookId)(db.loans[j]) {
        assert !ActiveOnNotebook(nb.id)(db.loans[j]);
      }
      OpenLoanKeepsConsistency(db, loan, m);
    }
  }

  /** Checkout keeps every rule but the quota on a ledger that already breaks
      the quota (after an older checkout went over it). */
  lemma CheckoutKeepsButQuota(db: Db, alunoId: Option<int>, patrimonio: Option<string>, now: int)
    requires ConsistentButQuota(db)
    ensures ConsistentButQuota(Checkout(db, alunoId, patrimonio, now).1)
  {
    var (r, db') := Checkout(db, alunoId, patrimonio, now);
    if r.Success? {
      var nb := Find(db.notebooks, WithPatrimonio(patrimonio.value)).value;
      var reserva := MostRecent(db.reservas, Qualifying(db.alunos, alunoId.value, now)).value;
      var loan := r.value;
      assert loan.notebookId == nb.id && loan.reservaId == reserva.id;
      var k :| 0 <= k < |db.notebooks| && db.notebooks[k] == nb;
      var m :| 0 <= m < |db.reservas| && db.reservas[m] == reserva;
      var a, e :| 0 <= a < |db.alunos| && 0 <= e < |db.alunos[a].materias| &&
        db.alunos[a].id == alunoId.value && db.alunos[a].materias[e].id == reserva.materiaId;
      assert NotebookExists(db.notebooks, loan.notebookId);
      assert AlunoExists(db.alunos, loan.alunoId) && ReservaExists(db.reservas, loan.reservaId);
      OpenLoanKeepsKeys(db, loan);
      forall j | 0 <= j < |db.loans| ensures !ActiveOnNotebook(loan.notebookId)(db.loans[j]) {
        assert !ActiveOnNotebook(nb.id)(db.loans[j]);
      }
      OpenLoanKeepsOneActive(db.loans, loan);
      OpenLoanKeepsInUse(db, loan);
    }
  }

  // ---------------------------------------------------------------------
  // GET /api/emprestimos

  /** Newer-or-equal checkout instant first (`orderBy: { dataRetirada: "desc" }`). */
  predicate NewerFirst(a: Loan, b: Loan)
  {
    a.dataRetirada >= b.dataRetirada
  }

  /** Every loan, ordered by `dataRetirada` descending. */
  function ListLoans(loans: seq<Loan>): (r: seq<Loan>)
    ensures SortedBy(r, NewerFirst)
    ensures multiset(r) == multiset(loans)
  {
    DescendingKeyOrder((l: Loan) => l.dataRetirada, NewerFirst);
    SortBySorted(loans, NewerFirst);
    SortBy(loans, NewerFirst)
  }
}
