/** The server-side ledger as the routes use it: the database tables held in
    one object, and one method per writing route that runs the route's checks
    and then updates the tables in place. Each method's result and new state
    are those of the route's function over the old tables. */
module Ledger {
  import opened Wrappers
  import opened Seqs
  import opened JsValues
  import opened Tables
  import EmprestimosRoute
  import DevolverRoute
  import LegacyEmprestimosRoute
  import NotebooksRoute
  import AlunosRoute

  /** What the older checkout keeps of the ledger's rules. */
  lemma LegacyKeeps(db: Db, alunoId: Option<int>, notebookId: Option<int>, reservaId: Option<int>, now: int)
    ensures var db' := LegacyEmprestimosRoute.LegacyCheckout(db, alunoId, notebookId, reservaId, now).1;
      && (ConsistentButQuota(db) ==> ConsistentButQuota(db'))
      && (OneActivePerAluno(db.loans) ==> OneActivePerAluno(db'.loans))
  {
    if ConsistentButQuota(db) {
      LegacyEmprestimosRoute.LegacyKeepsAllButQuota(db, alunoId, notebookId, reservaId, now);
    }
    if OneActivePerAluno(db.loans) {
      LegacyEmprestimosRoute.LegacyKeepsOneActivePerAluno(db, alunoId, notebookId, reservaId, now);
    }
  }

  /** What a checkout keeps of the ledger's rules. */
  lemma CheckoutKeeps(db: Db, alunoId: Option<int>, patrimonio: Option<string>, now: int)
    ensures var db' := EmprestimosRoute.Checkout(db, alunoId, patrimonio, now).1;
      && (Consistent(db) ==> Consistent(db'))
      && (ConsistentButQuota(db) ==> ConsistentButQuota(db'))
  {
    if Consistent(db) {
      EmprestimosRoute.CheckoutPreservesConsistency(db, alunoId, patrimonio, now);
    }
    if ConsistentButQuota(db) {
      EmprestimosRoute.CheckoutKeepsButQuota(db, alunoId, patrimonio, now);
    }
  }

  /** What a return keeps of the ledger's rules. */
  lemma DevolverKeeps(db: Db, alunoId: Option<int>, now: int)
    requires LoansLinked(db)
    ensures var db' := DevolverRoute.Devolver(db, alunoId, now).1;
      && (Consistent(db) ==> Consistent(db'))
      && (ConsistentButQuota(db) ==> ConsistentButQuota(db'))
  {
    if Consistent(db) {
      DevolverRoute.DevolverPreservesConsistency(db, alunoId, now);
    }
    if ConsistentButQuota(db) {
      DevolverRoute.DevolverKeepsButQuota(db, alunoId, now);
    }
  }

  class Database {
    var notebooks: seq<Notebook>
    var loans: seq<Loan>
    var reservas: seq<Reserva>
    var alunos: seq<Aluno>
    var nextNotebookId: int
    var nextLoanId: int
    var nextAlunoId: int

    function State(): Db
      reads this
    {
      Db(notebooks, loans, reservas, alunos, nextNotebookId, nextLoanId, nextAlunoId)
    }

    ghost predicate Valid()
      reads this
    {
      Consistent(State())
    }

    /** Empty tables; reservations are made elsewhere and given here. */
    constructor (reservas: seq<Reserva>)
      requires UniqueReservaIds(reservas)
      requires forall k :: 0 <= k < |reservas| ==> reservas[k].qtdNotebooks >= 0
      ensures Valid()
      ensures State() == Db([], [], reservas, [], 1, 1, 1)
    {
      notebooks := [];
      loans := [];
      this.reservas := reservas;
      alunos := [];
      nextNotebookId := 1;
      nextLoanId := 1;
      nextAlunoId := 1;
      new;
      assert forall k :: 0 <= k < |this.reservas| ==> ActiveCount([], this.reservas[k].id) == 0;
    }

    /** POST /api/emprestimos. */
    method Checkout(alunoId: Option<int>, patrimonio: Option<string>, now: int)
      returns (r: Result<Loan, EmprestimosRoute.CheckoutError>)
      modifies this
      ensures (r, State()) == EmprestimosRoute.Checkout(old(State()), alunoId, patrimonio, now)
      ensures old(Valid()) ==> Valid()
      ensures old(ConsistentButQuota(State())) ==> ConsistentButQuota(State())
    {
      ghost var db := State();
      if !TruthyId(alunoId) || !TruthyText(patrimonio) {
        return Failure(EmprestimosRoute.MissingFields);
      }
      var nb := Find(notebooks, WithPatrimonio(patrimonio.value));
      if nb.None? {
        return Failure(EmprestimosRoute.NotebookNotFound);
      }
      if nb.value.status != Disponivel || Find(loans, ActiveOnNotebook(nb.value.id)).Some? {
        return Failure(EmprestimosRoute.NotebookInUse);
      }
      var reserva := EmprestimosRoute.MostRecent(reservas, EmprestimosRoute.Qualifying(alunos, alunoId.value, now));
      if reserva.None? {
        return Failure(EmprestimosRoute.NoReservaToday);
      }
      if ActiveCount(loans, reserva.value.id) >= reserva.value.qtdNotebooks {
        return Failure(EmprestimosRoute.QuotaReached(reserva.value.qtdNotebooks));
      }
      var loan := Loan(nextLoanId, alunoId.value, nb.value.id, reserva.value.id, now, None, Ativo);
      loans := loans + [loan];
      notebooks := SetNotebookStatus(notebooks, nb.value.id, EmUso);
      nextLoanId := nextLoanId + 1;
      r := Success(loan);
      assert (r, State()) == EmprestimosRoute.Checkout(db, alunoId, patrimonio, now);
      CheckoutKeeps(db, alunoId, patrimonio, now);
    }

    /** POST /api/emprestimos/devolver. */
    method Devolver(alunoId: Option<int>, now: int) returns (r: Result<DevolverRoute.Devolucao, DevolverRoute.ReturnError>)
      requires LoansLinked(State())
      modifies this
      ensures (r, State()) == DevolverRoute.Devolver(old(State()), alunoId, now)
      ensures old(Valid()) ==> Valid()
      ensures old(ConsistentButQuota(State())) ==> ConsistentButQuota(State())
    {
      ghost var db := State();
      if !TruthyId(alunoId) {
        return Failure(DevolverRoute.MissingAlunoId);
      }
      var i := DevolverRoute.ActiveLoanIndex(loans, alunoId.value);
      if i < 0 {
        return Failure(DevolverRoute.NoActiveLoan);
      }
      var loan := loans[i];
      var notebook := Find(notebooks, WithNotebookId(loan.notebookId));
      var aluno := Find(alunos, WithAlunoId(loan.alunoId));
      assert DevolverRoute.Devolver(db, alunoId, now).0.Success?;
      r := Success(DevolverRoute.Devolucao(loan.id, notebook.value.patrimonio, aluno.value.nome));
      loans := loans[i := loan.(status := Devolvido, dataDevolucao := Some(now))];
      notebooks := SetNotebookStatus(notebooks, loan.notebookId, Disponivel);
      assert (r, State()) == DevolverRoute.Devolver(db, alunoId, now);
      DevolverKeeps(db, alunoId, now);
    }

    /** POST /api/Emprestimos, the older checkout. It can break the quota, so
        of the consistency rules it keeps every one but that. */
    method LegacyCheckout(alunoId: Option<int>, notebookId: Option<int>, reservaId: Option<int>, now: int)
      returns (r: Result<Loan, LegacyEmprestimosRoute.LegacyError>)
      modifies this
      ensures (r, State()) == LegacyEmprestimosRoute.LegacyCheckout(old(State()), alunoId, notebookId, reservaId, now)
      ensures old(ConsistentButQuota(State())) ==> ConsistentButQuota(State())
      ensures old(OneActivePerAluno(loans)) ==> OneActivePerAluno(loans)
    {
      ghost var db := State();
      if notebookId.None? {
        return Failure(LegacyEmprestimosRoute.ServerError);
      }
      var nb := Find(notebooks, WithNotebookId(notebookId.value));
      if nb.None? || nb.value.status != Disponivel {
        return Failure(LegacyEmprestimosRoute.NotebookIndisponivel);
      }
      if Find(loans, LegacyEmprestimosRoute.ActiveMatching(alunoId)).Some? {
        return Failure(LegacyEmprestimosRoute.AlunoComEmprestimoAtivo);
      }
      // the insert fails on an absent id, or a foreign key naming no student or reservation
      if alunoId.None? || reservaId.None? || !AlunoExists(alunos, alunoId.value) || !ReservaExists(reservas, reservaId.value) {
        return Failure(LegacyEmprestimosRoute.ServerError);
      }
      var loan := Loan(nextLoanId, alunoId.value, notebookId.value, reservaId.value, now, None, Ativo);
      loans := loans + [loan];
      notebooks := SetNotebookStatus(notebooks, notebookId.value, EmUso);
      nextLoanId := nextLoanId + 1;
      r := Success(loan);
      assert (r, State()) == LegacyEmprestimosRoute.LegacyCheckout(db, alunoId, notebookId, reservaId, now);
      LegacyKeeps(db, alunoId, notebookId, reservaId, now);
    }

    /** POST /api/notebooks. */
    method CreateNotebook(patrimonio: Option<string>, modelo: Option<string>)
      returns (r: Result<Notebook, NotebooksRoute.CreateError>)
      modifies this
      ensures (r, State()) == NotebooksRoute.CreateNotebook(old(State()), patrimonio, modelo)
      ensures old(Valid()) ==> Valid()
      ensures old(ConsistentButQuota(State())) ==> ConsistentButQuota(State())
    {
      ghost var db := State();
      if !TruthyText(patrimonio) || !TruthyText(modelo) {
        return Failure(NotebooksRoute.MissingFields);
      }
      if Find(notebooks, WithPatrimonio(patrimonio.value)).Some? {
        return Failure(NotebooksRoute.DuplicatePatrimonio);
      }
      var nb := Notebook(nextNotebookId, patrimonio.value, modelo.value, Disponivel);
      notebooks := notebooks + [nb];
      nextNotebookId := nextNotebookId + 1;
      r := Success(nb);
      if ConsistentButQuota(db) {
        NotebooksRoute.CreateNotebookPreservesConsistency(db, patrimonio, modelo);
      }
    }

    /** DELETE /api/notebooks. */
    method DeleteNotebook(id: int) returns (r: Result<(), NotebooksRoute.DeleteError>)
      modifies this
      ensures (r, State()) == NotebooksRoute.DeleteNotebook(old(State()), id)
      ensures old(Valid()) ==> Valid()
      ensures old(ConsistentButQuota(State())) ==> ConsistentButQuota(State())
    {
      ghost var db := State();
      if Find(notebooks, WithNotebookId(id)).None? || NotebooksRoute.Referenced(loans, id) {
        return Failure(NotebooksRoute.DeleteFailed);
      }
      notebooks := Filter(notebooks, NotebooksRoute.WithoutNotebookId(id));
      r := Success(());
      if ConsistentButQuota(db) {
        NotebooksRoute.DeleteNotebookPreservesConsistency(db, id);
      }
    }

    /** POST /api/admin/alunos. */
    method EnrolStudent(nome: Option<string>, matricula: Option<string>, fotoBase64: Option<string>)
      returns (r: Result<Aluno, AlunosRoute.EnrolError>)
      modifies this
      ensures (r, State()) == AlunosRoute.EnrolStudent(old(State()), nome, matricula, fotoBase64)
      ensures old(Valid()) ==> Valid()
      ensures old(ConsistentButQuota(State())) ==> ConsistentButQuota(State())
    {
      ghost var db := State();
      if !TruthyText(nome) || !TruthyText(matricula) || !TruthyText(fotoBase64) {
        return Failure(AlunosRoute.MissingFields);
      }
      if Find(alunos, WithMatricula(matricula.value)).Some? {
        return Failure(AlunosRoute.DuplicateMatricula);
      }
      var a := Aluno(nextAlunoId, nome.value, matricula.value, AlunosRoute.StripDataUrlPrefix(fotoBase64.value), [], []);
      alunos := alunos + [a];
      nextAlunoId := nextAlunoId + 1;
      r := Success(a);
      if ConsistentButQuota(db) {
        AlunosRoute.EnrolPreservesConsistency(db, nome, matricula, fotoBase64);
      }
    }
  }
}
