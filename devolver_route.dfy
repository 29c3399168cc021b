/** POST /api/emprestimos/devolver: returning the notebook of a student's ATIVO
    loan. */
module DevolverRoute {
  import opened Wrappers
  import opened Seqs
  import opened JsValues
  import opened Tables

  /** Rejections: `MissingAlunoId` is a 400, `NoActiveLoan` a 404. */
  datatype ReturnError = MissingAlunoId | NoActiveLoan

  /** The response body: the closed loan's id, its notebook's asset tag and the student's name. */
  datatype Devolucao = Devolucao(emprestimoId: int, patrimonio: string, aluno: string)

  /** The loan a return closes: the student's first ATIVO loan, or -1. */
  function ActiveLoanIndex(loans: seq<Loan>, alunoId: int): int
  {
    FirstIndex(loans, ActiveOfAluno(alunoId))
  }

  function Devolver(db: Db, alunoId: Option<int>, now: int): (r: (Result<Devolucao, ReturnError>, Db))
    requires LoansLinked(db)
    ensures r.0.Failure? ==> r.1 == db
    ensures r.0 == Failure(MissingAlunoId) <==> !TruthyId(alunoId)
    ensures r.0 == Failure(NoActiveLoan) <==>
      TruthyId(alunoId) && forall k :: 0 <= k < |db.loans| ==>
        !(db.loans[k].alunoId == alunoId.value && db.loans[k].status == Ativo)
  {
    if !TruthyId(alunoId) then (Failure(MissingAlunoId), db)
    else
      var i := ActiveLoanIndex(db.loans, alunoId.value);
      if i < 0 then
        assert forall k :: 0 <= k < |db.loans| ==> !ActiveOfAluno(alunoId.value)(db.loans[k]);
        (Failure(NoActiveLoan), db)
      else
        var loan := db.loans[i];
        assert ActiveOfAluno(alunoId.value)(loan);
        var notebook := Find(db.notebooks, WithNotebookId(loan.notebookId));
        var aluno := Find(db.alunos, WithAlunoId(loan.alunoId));
        assert notebook.Some? by {
          var k :| 0 <= k < |db.notebooks| && db.notebooks[k].id == loan.notebookId;
          assert WithNotebookId(loan.notebookId)(db.notebooks[k]);
        }
        assert aluno.Some? by {
          var k :| 0 <= k < |db.alunos| && db.alunos[k].id == loan.alunoId;
          assert WithAlunoId(loan.alunoId)(db.alunos[k]);
        }
        (Success(Devolucao(loan.id, notebook.value.patrimonio, aluno.value.nome)), CloseLoan(db, i, now))
  }

  /** A successful return closes the student's first ATIVO loan: it becomes
      DEVOLVIDO at `now`, its notebook becomes DISPONIVEL, and the response
      names that loan and that notebook's asset tag. No other loan changes and
      no other notebook changes. */
  lemma DevolverSuccess(db: Db, alunoId: Option<int>, now: int)
    requires LoansLinked(db) && UniqueNotebooks(db.notebooks)
    requires Devolver(db, alunoId, now).0.Success?
    ensures var (r, db') := Devolver(db, alunoId, now);
      exists i :: 0 <= i < |db.loans|
        && db.loans[i].alunoId == alunoId.value && db.loans[i].status == Ativo
        && (forall j :: 0 <= j < i ==> !(db.loans[j].alunoId == alunoId.value && db.loans[j].status == Ativo))
        && r.value.emprestimoId == db.loans[i].id
        && |db'.loans| == |db.loans|
        && db'.loans[i] == db.loans[i].(status := Devolvido, dataDevolucao := Some(now))
        && (forall j :: 0 <= j < |db.loans| && j != i ==> db'.loans[j] == db.loans[j])
        && |db'.notebooks| == |db.notebooks|
        && (forall k :: 0 <= k < |db.notebooks| ==>
              if db.notebooks[k].id == db.loans[i].notebookId
              then db'.notebooks[k] == db.notebooks[k].(status := Disponivel) &&
                   r.value.patrimonio == db.notebooks[k].patrimonio
              else db'.notebooks[k] == db.notebooks[k])
  {
    var i := ActiveLoanIndex(db.loans, alunoId.value);
    var loan := db.loans[i];
    forall j | 0 <= j < i ensures !(db.loans[j].alunoId == alunoId.value && db.loans[j].status == Ativo) {
      assert !ActiveOfAluno(alunoId.value)(db.loans[j]);
    }
    var (r, db') := Devolver(db, alunoId, now);
    assert db' == CloseLoan(db, i, now) && r.value.emprestimoId == loan.id;
    var nb := Find(db.notebooks, WithNotebookId(loan.notebookId)).value;
    var m :| 0 <= m < |db.notebooks| && db.notebooks[m] == nb;
    assert r.value.patrimonio == nb.patrimonio;
    forall k | 0 <= k < |db.notebooks|
      ensures if db.notebooks[k].id == loan.notebookId
              then db'.notebooks[k] == db.notebooks[k].(status := Disponivel) && r.value.patrimonio == db.notebooks[k].patrimonio
              else db'.notebooks[k] == db.notebooks[k]
    {
      if db.notebooks[k].id == loan.notebookId {
        assert k == m;
      }
    }
  }

  /** The return closes the student's first ATIVO loan `i` and reports it. */
  lemma DevolverClosesFirstActive(db: Db, alunoId: int, now: int, i: int)
    requires LoansLinked(db) && alunoId != 0
    requires 0 <= i < |db.loans| && db.loans[i].alunoId == alunoId && db.loans[i].status == Ativo
    requires forall j :: 0 <= j < i ==> !(db.loans[j].alunoId == alunoId && db.loans[j].status == Ativo)
    ensures var (r, db') := Devolver(db, Some(alunoId), now);
      && r.Success? && r.value.emprestimoId == db.loans[i].id && db' == CloseLoan(db, i, now)
      && Find(db.notebooks, WithNotebookId(db.loans[i].notebookId)).Some?
      && r.value.patrimonio == Find(db.notebooks, WithNotebookId(db.loans[i].notebookId)).value.patrimonio
  {
    assert forall j :: 0 <= j < i ==> !ActiveOfAluno(alunoId)(db.loans[j]);
    FindIsFirst(db.loans, ActiveOfAluno(alunoId), i);
  }

  /** Returning keeps the ledger consistent. */
  lemma DevolverPreservesConsistency(db: Db, alunoId: Option<int>, now: int)
    requires Consistent(db)
    ensures Consistent(Devolver(db, alunoId, now).1)
  {
    if Devolver(db, alunoId, now).0.Success? {
      var i := ActiveLoanIndex(db.loans, alunoId.value);
      assert ActiveOfAluno(alunoId.value)(db.loans[i]);
      CloseLoanKeepsKeys(db, i, now);
      CloseLoanKeepsQuota(db, i, now);
      CloseLoanKeepsInUse(db, i, now);
    }
  }

  /** Returning keeps every rule but the quota on a ledger that already
      breaks the quota. */
  lemma DevolverKeepsButQuota(db: Db, alunoId: Option<int>, now: int)
    requires ConsistentButQuota(db)
    ensures ConsistentButQuota(Devolver(db, alunoId, now).1)
  {
    if Devolver(db, alunoId, now).0.Success? {
      var i := ActiveLoanIndex(db.loans, alunoId.value);
      assert ActiveOfAluno(alunoId.value)(db.loans[i]);
      CloseLoanKeepsKeys(db, i, now);
      CloseLoanKeepsInUse(db, i, now);
    }
  }

  /** A successful return leaves the student with one ATIVO loan fewer. */
  lemma DevolverClosesExactlyOne(db: Db, alunoId: Option<int>, now: int)
    requires LoansLinked(db)
    requires Devolver(db, alunoId, now).0.Success?
    ensures |Filter(Devolver(db, alunoId, now).1.loans, ActiveOfAluno(alunoId.value))| ==
            |Filter(db.loans, ActiveOfAluno(alunoId.value))| - 1
  {
    var i := ActiveLoanIndex(db.loans, alunoId.value);
    FilterCountUpdate(db.loans, i, db.loans[i].(status := Devolvido, dataDevolucao := Some(now)),
                      ActiveOfAluno(alunoId.value));
  }

  /** A return refused for lack of an ATIVO loan changes nothing, so the same
      request is refused again in the same way. */
  lemma DevolverRefusalRepeats(db: Db, alunoId: Option<int>, now: int, later: int)
    requires LoansLinked(db)
    requires Devolver(db, alunoId, now).0 == Failure(NoActiveLoan)
    ensures Devolver(Devolver(db, alunoId, now).1, alunoId, later).0 == Failure(NoActiveLoan)
  {
  }
}
