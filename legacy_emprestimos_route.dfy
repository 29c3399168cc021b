/** The older checkout, POST /api/Emprestimos: it takes the notebook, student
    and reservation ids from the request, refuses a student who already has an
    ATIVO loan, and checks neither the reservation nor its quota. */
module LegacyEmprestimosRoute {
  import opened Wrappers
  import opened Seqs
  import opened Tables

  /** `NotebookIndisponivel` and `AlunoComEmprestimoAtivo` are 400 answers;
      `ServerError` is the 500 answer of the `catch`, reached when Prisma
      rejects the lookup (no notebook id) or the insert (an absent id, or one
      naming no student or reservation). */
  datatype LegacyError = NotebookIndisponivel | AlunoComEmprestimoAtivo | ServerError

  /** The ATIVO loans `findFirst({ where: { alunoId, status: "ATIVO" } })`
      looks at: an absent `alunoId` drops that condition, so every ATIVO loan. */
  function ActiveMatching(alunoId: Option<int>): (p: Loan -> bool)
    ensures alunoId.Some? ==> forall l :: p(l) == ActiveOfAluno(alunoId.value)(l)
    ensures alunoId.None? ==> forall l :: p(l) == (l.status == Ativo)
  {
    (l: Loan) => l.status == Ativo && (alunoId.None? || l.alunoId == alunoId.value)
  }

  /** POST /api/Emprestimos with body `{ notebookId, alunoId, reservaId }`;
      `None` stands for a field the body leaves out. */
  function LegacyCheckout(db: Db, alunoId: Option<int>, notebookId: Option<int>, reservaId: Option<int>, now: int)
    : (r: (Result<Loan, LegacyError>, Db))
    ensures r.0.Failure? ==> r.1 == db
    ensures r.0 == Failure(ServerError) <== notebookId.None?
    ensures r.0.Success? ==>
      && alunoId.Some? && notebookId.Some? && reservaId.Some?
      && r.0.value == Loan(db.nextLoanId, alunoId.value, notebookId.value, reservaId.value, now, None, Ativo)
      && r.1 == OpenLoan(db, r.0.value)
  {
    if notebookId.None? then (Failure(ServerError), db)
    else match Find(db.notebooks, WithNotebookId(notebookId.value))
      case None => (Failure(NotebookIndisponivel), db)
      case Some(nb) =>
        if nb.status != Disponivel then (Failure(NotebookIndisponivel), db)
        else if Find(db.loans, ActiveMatching(alunoId)).Some? then (Failure(AlunoComEmprestimoAtivo), db)
        else if alunoId.None? || reservaId.None? then (Failure(ServerError), db)
        else if !AlunoExists(db.alunos, alunoId.value) || !ReservaExists(db.reservas, reservaId.value) then
          (Failure(ServerError), db)
        else
          var loan := Loan(db.nextLoanId, alunoId.value, notebookId.value, reservaId.value, now, None, Ativo);
          (Success(loan), OpenLoan(db, loan))
  }

  /** With a notebook id given, the notebook is refused as unavailable exactly
      when no notebook with that id is DISPONIVEL; this check comes before
      every other one. */
  lemma LegacyRefusesUnavailable(db: Db, alunoId: Option<int>, notebookId: int, reservaId: Option<int>, now: int)
    requires UniqueNotebooks(db.notebooks)
    ensures LegacyCheckout(db, alunoId, Some(notebookId), reservaId, now).0 == Failure(NotebookIndisponivel) <==>
      forall k :: 0 <= k < |db.notebooks| && db.notebooks[k].id == notebookId ==>
        db.notebooks[k].status != Disponivel
  {
    var found := Find(db.notebooks, WithNotebookId(notebookId));
    if found.Some? {
      var m :| 0 <= m < |db.notebooks| && db.notebooks[m] == found.value;
    } else {
      assert forall k :: 0 <= k < |db.notebooks| ==> !WithNotebookId(notebookId)(db.notebooks[k]);
    }
  }

  /** A student holding an ATIVO loan is refused once the notebook is
      available, and nothing is created. */
  lemma LegacyRefusesSecondLoan(db: Db, alunoId: int, notebookId: int, reservaId: Option<int>, now: int, j: int)
    requires UniqueNotebooks(db.notebooks)
    requires exists k :: 0 <= k < |db.notebooks| && db.notebooks[k].id == notebookId &&
                         db.notebooks[k].status == Disponivel
    requires 0 <= j < |db.loans| && db.loans[j].alunoId == alunoId && db.loans[j].status == Ativo
    ensures LegacyCheckout(db, Some(alunoId), Some(notebookId), reservaId, now) == (Failure(AlunoComEmprestimoAtivo), db)
  {
    var k :| 0 <= k < |db.notebooks| && db.notebooks[k].id == notebookId && db.notebooks[k].status == Disponivel;
    FindIsFirst(db.notebooks, WithNotebookId(notebookId), k);
    assert ActiveMatching(Some(alunoId))(db.loans[j]);
  }

  /** Past the notebook check, the answer for every input: a student holding
      an ATIVO loan is refused; otherwise the loan is created exactly when all
      three ids are given and name an existing student and reservation —
      whatever that reservation's status, class date or count of ATIVO loans
      — and every other case is the 500 answer. */
  lemma LegacyAfterNotebookCheck(db: Db, alunoId: Option<int>, notebookId: int, reservaId: Option<int>, now: int, k: int)
    requires UniqueNotebooks(db.notebooks)
    requires 0 <= k < |db.notebooks| && db.notebooks[k].id == notebookId && db.notebooks[k].status == Disponivel
    ensures var (res, db') := LegacyCheckout(db, alunoId, Some(notebookId), reservaId, now);
      && (res == Failure(AlunoComEmprestimoAtivo) <==>
            exists j :: 0 <= j < |db.loans| && db.loans[j].status == Ativo &&
              (alunoId.None? || db.loans[j].alunoId == alunoId.value))
      && (res.Success? <==>
            && alunoId.Some? && reservaId.Some?
            && (forall j :: 0 <= j < |db.loans| ==> !(db.loans[j].alunoId == alunoId.value && db.loans[j].status == Ativo))
            && AlunoExists(db.alunos, alunoId.value) && ReservaExists(db.reservas, reservaId.value))
      && (res != Failure(AlunoComEmprestimoAtivo) && !res.Success? ==> res == Failure(ServerError))
  {
    FindIsFirst(db.notebooks, WithNotebookId(notebookId), k);
    var found := Find(db.loans, ActiveMatching(alunoId));
    if found.Some? {
      var j :| 0 <= j < |db.loans| && db.loans[j] == found.value;
    } else {
      assert forall j :: 0 <= j < |db.loans| ==> !ActiveMatching(alunoId)(db.loans[j]);
    }
  }

  /** Without a notebook id the lookup itself fails (500). With one but no
      student id, the ATIVO check looks at every student, so the request is
      refused when anyone holds an ATIVO loan and fails (500) otherwise. */
  lemma LegacyAbsentIds(db: Db, alunoId: Option<int>, notebookId: Option<int>, reservaId: Option<int>, now: int)
    requires UniqueNotebooks(db.notebooks)
    ensures notebookId.None? ==> LegacyCheckout(db, alunoId, notebookId, reservaId, now) == (Failure(ServerError), db)
    ensures notebookId.Some? && alunoId.None? &&
            (exists k :: 0 <= k < |db.notebooks| && db.notebooks[k].id == notebookId.value &&
                         db.notebooks[k].status == Disponivel) ==>
      LegacyCheckout(db, alunoId, notebookId, reservaId, now) ==
        (Failure(if exists j :: 0 <= j < |db.loans| && db.loans[j].status == Ativo
                 then AlunoComEmprestimoAtivo else ServerError), db)
  {
    if notebookId.Some? && alunoId.None? &&
       exists k :: 0 <= k < |db.notebooks| && db.notebooks[k].id == notebookId.value && db.notebooks[k].status == Disponivel {
      var k :| 0 <= k < |db.notebooks| && db.notebooks[k].id == notebookId.value && db.notebooks[k].status == Disponivel;
      LegacyAfterNotebookCheck(db, alunoId, notebookId.value, reservaId, now, k);
    }
  }

  /** The older checkout keeps "one ATIVO loan per student". */
  lemma LegacyKeepsOneActivePerAluno(db: Db, alunoId: Option<int>, notebookId: Option<int>, reservaId: Option<int>, now: int)
    requires OneActivePerAluno(db.loans)
    ensures OneActivePerAluno(LegacyCheckout(db, alunoId, notebookId, reservaId, now).1.loans)
  {
    var (r, db') := LegacyCheckout(db, alunoId, notebookId, reservaId, now);
    if r.Success? {
      forall k | 0 <= k < |db.loans| ensures !(db.loans[k].alunoId == alunoId.value && db.loans[k].status == Ativo) {
        assert !ActiveMatching(alunoId)(db.loans[k]);
      }
    }
  }

  /** The older checkout keeps every consistency rule except the quota (I2),
      also on a ledger whose quota an earlier call already exceeded: an
      available notebook has no ATIVO loan, so I1 holds afterwards. */
  lemma LegacyKeepsAllButQuota(db: Db, alunoId: Option<int>, notebookId: Option<int>, reservaId: Option<int>, now: int)
    requires ConsistentButQuota(db)
    ensures ConsistentButQuota(LegacyCheckout(db, alunoId, notebookId, reservaId, now).1)
  {
    var (r, db') := LegacyCheckout(db, alunoId, notebookId, reservaId, now);
    if r.Success? {
      var loan := r.value;
      var nb := Find(db.notebooks, WithNotebookId(notebookId.value)).value;
      var m :| 0 <= m < |db.notebooks| && db.notebooks[m] == nb;
      OpenLoanKeepsKeys(db, loan);
      assert forall k :: 0 <= k < |db.loans| ==> !ActiveOnNotebook(notebookId.value)(db.loans[k]);
      OpenLoanKeepsOneActive(db.loans, loan);
      OpenLoanKeepsInUse(db, loan);
    }
  }

  /** Two notebooks, two students, and one reservation with quota 1 whose one
      loan (of the first student, on the first notebook) is ATIVO. */
  function QuotaFullDb(): (db: Db)
    ensures |db.notebooks| == 2 && |db.loans| == 1 && |db.reservas| == 1 && |db.alunos| == 2
  {
    Db([Notebook(1, "A", "m", EmUso), Notebook(2, "B", "m", Disponivel)],
       [Loan(1, 1, 1, 1, 0, None, Ativo)],
       [Reserva(1, 1, 0, 0, 1, Ativa, "", None, None, None)],
       [Aluno(1, "x", "1", "", [], []), Aluno(2, "y", "2", "", [], [])],
       3, 2, 3)
  }

  lemma QuotaFullDbIsConsistent()
    ensures Consistent(QuotaFullDb())
    ensures ActiveCount(QuotaFullDb().loans, 1) == QuotaFullDb().reservas[0].qtdNotebooks
  {
    var db := QuotaFullDb();
    assert ActiveOnReserva(1)(db.loans[0]);
    assert ActiveCount(db.loans, 1) == 1;
    assert db.notebooks[0].id == 1 && db.alunos[0].id == 1 && db.reservas[0].id == 1;
    assert LoansLinked(db);
  }

  /** The older checkout can break the quota: a consistent ledger whose only
      reservation (quota 1) already has its one ATIVO loan still accepts a
      second loan against it, after which I2 fails. */
  lemma LegacyIgnoresQuota()
    ensures Consistent(QuotaFullDb())
    ensures LegacyCheckout(QuotaFullDb(), Some(2), Some(2), Some(1), 0).0.Success?
    ensures !QuotaRespected(LegacyCheckout(QuotaFullDb(), Some(2), Some(2), Some(1), 0).1)
  {
    var db := QuotaFullDb();
    QuotaFullDbIsConsistent();
    FindIsFirst(db.notebooks, WithNotebookId(2), 1);
    assert !ActiveMatching(Some(2))(db.loans[0]);
    assert db.alunos[1].id == 2 && db.reservas[0].id == 1;
    var (r, db') := LegacyCheckout(db, Some(2), Some(2), Some(1), 0);
    assert r.Success?;
    OpenLoanCount(db, r.value, 1);
    assert ActiveCount(db'.loans, 1) == 2;
  }
}
