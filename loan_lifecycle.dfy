/** How the checkout and return routes combine. */
module LoanLifecycle {
  import opened Wrappers
  import opened JsValues
  import opened Seqs
  import opened Tables
  import opened EmprestimosRoute
  import opened DevolverRoute

  /** Opening a loan for a student without one and returning it restores the
      notebook table and leaves the closed loan behind. */
  lemma OpenThenReturn(db: Db, loan: Loan, k: int, later: int)
    requires UniqueNotebooks(db.notebooks) && LoansLinked(OpenLoan(db, loan))
    requires loan.status == Ativo && loan.alunoId != 0
    requires forall j :: 0 <= j < |db.loans| ==> !(db.loans[j].alunoId == loan.alunoId && db.loans[j].status == Ativo)
    requires 0 <= k < |db.notebooks| && db.notebooks[k].id == loan.notebookId && db.notebooks[k].status == Disponivel
    ensures var (r2, db2) := Devolver(OpenLoan(db, loan), Some(loan.alunoId), later);
      && r2.Success?
      && r2.value.emprestimoId == loan.id
      && r2.value.patrimonio == db.notebooks[k].patrimonio
      && db2.notebooks == db.notebooks
      && db2.loans == db.loans + [loan.(status := Devolvido, dataDevolucao := Some(later))]
  {
    var db1 := OpenLoan(db, loan);
    var n := |db.loans|;
    assert db1.loans[n] == loan;
    DevolverClosesFirstActive(db1, loan.alunoId, later, n);
    assert db1.notebooks[k].id == loan.notebookId;
    forall j | 0 <= j < k ensures !WithNotebookId(loan.notebookId)(db1.notebooks[j]) {
      assert db1.notebooks[j].id == db.notebooks[j].id;
    }
    FindIsFirst(db1.notebooks, WithNotebookId(loan.notebookId), k);
    SetNotebookStatusRestores(db.notebooks, loan.notebookId, Disponivel);
    assert CloseLoan(db1, n, later).loans == db1.loans[n := loan.(status := Devolvido, dataDevolucao := Some(later))];
  }

  /** The student holds no ATIVO loan. */
  predicate HoldsNoActiveLoan(loans: seq<Loan>, alunoId: int)
  {
    forall k :: 0 <= k < |loans| ==> !(loans[k].alunoId == alunoId && loans[k].status == Ativo)
  }

  /** A student whose first ATIVO loan is `i` checks out another notebook and
      then returns "their" notebook: the return closes the older loan `i`, not
      the new one, which stays ATIVO as the last row of the loan table. */
  lemma ReturnClosesPriorLoan(db: Db, alunoId: int, patrimonio: string, now: int, later: int, i: int)
    requires Consistent(db)
    requires Checkout(db, Some(alunoId), Some(patrimonio), now).0.Success?
    requires 0 <= i < |db.loans| && db.loans[i].alunoId == alunoId && db.loans[i].status == Ativo
    requires forall j :: 0 <= j < i ==> !(db.loans[j].alunoId == alunoId && db.loans[j].status == Ativo)
    ensures var (r1, db1) := Checkout(db, Some(alunoId), Some(patrimonio), now);
      && LoansLinked(db1)
      && var (r2, db2) := Devolver(db1, Some(alunoId), later);
      && r2.Success?
      && r2.value.emprestimoId == db.loans[i].id
      && db2 == CloseLoan(db1, i, later)
      && |db2.loans| == |db.loans| + 1
      && db2.loans[|db.loans|] == r1.value
      && db2.loans[|db.loans|].status == Ativo
  {
    var (r1, db1) := Checkout(db, Some(alunoId), Some(patrimonio), now);
    CheckoutPreservesConsistency(db, Some(alunoId), Some(patrimonio), now);
    OpenThenReturnPrior(db, r1.value, later, i);
  }

  /** Opening a loan for a student whose first ATIVO loan is `i` and then
      returning: the return closes `i`, and the new loan stays ATIVO. */
  lemma OpenThenReturnPrior(db: Db, loan: Loan, later: int, i: int)
    requires LoansLinked(OpenLoan(db, loan)) && loan.alunoId != 0 && loan.status == Ativo
    requires 0 <= i < |db.loans| && db.loans[i].alunoId == loan.alunoId && db.loans[i].status == Ativo
    requires forall j :: 0 <= j < i ==> !(db.loans[j].alunoId == loan.alunoId && db.loans[j].status == Ativo)
    ensures var db1 := OpenLoan(db, loan);
      var (r2, db2) := Devolver(db1, Some(loan.alunoId), later);
      && r2.Success?
      && r2.value.emprestimoId == db.loans[i].id
      && db2 == CloseLoan(db1, i, later)
      && |db2.loans| == |db.loans| + 1
      && db2.loans[|db.loans|] == loan
  {
    var db1 := OpenLoan(db, loan);
    assert db1.loans[i] == db.loans[i];
    assert forall j :: 0 <= j < i ==> db1.loans[j] == db.loans[j];
    DevolverClosesFirstActive(db1, loan.alunoId, later, i);
  }

  /** After that return the new loan's notebook is still out: any student who
      asks for its asset tag is refused with `NotebookInUse`. */
  lemma PriorReturnLeavesNotebookOut(db: Db, alunoId: int, patrimonio: string, now: int, later: int, i: int,
                                     alunoId2: Option<int>, now2: int)
    requires Consistent(db)
    requires Checkout(db, Some(alunoId), Some(patrimonio), now).0.Success?
    requires 0 <= i < |db.loans| && db.loans[i].alunoId == alunoId && db.loans[i].status == Ativo
    requires forall j :: 0 <= j < i ==> !(db.loans[j].alunoId == alunoId && db.loans[j].status == Ativo)
    requires TruthyId(alunoId2)
    ensures var db1 := Checkout(db, Some(alunoId), Some(patrimonio), now).1;
      && LoansLinked(db1)
      && var db2 := Devolver(db1, Some(alunoId), later).1;
      && Checkout(db2, alunoId2, Some(patrimonio), now2).0 == Failure(NotebookInUse)
  {
    ReturnClosesPriorLoan(db, alunoId, patrimonio, now, later, i);
    CheckoutSuccess(db, Some(alunoId), Some(patrimonio), now);
    var (r1, db1) := Checkout(db, Some(alunoId), Some(patrimonio), now);
    var loan := r1.value;
    var n := |db.loans|;
    var k :| 0 <= k < |db.notebooks| && db.notebooks[k].id == loan.notebookId &&
             db.notebooks[k].patrimonio == patrimonio && db.notebooks[k].status == Disponivel;
    var db2 := CloseLoan(OpenLoan(db, loan), i, later);
    OpenThenCloseKeepsTags(db, loan, i, later);
    CheckoutRefusesTakenNotebook(db2, alunoId2, patrimonio, now2, k, n);
  }

  /** Opening a loan and closing one change notebook statuses only. */
  lemma OpenThenCloseKeepsTags(db: Db, loan: Loan, i: int, later: int)
    requires 0 <= i < |db.loans|
    ensures var db2 := CloseLoan(OpenLoan(db, loan), i, later);
      && |db2.notebooks| == |db.notebooks|
      && forall j :: 0 <= j < |db.notebooks| ==>
           db2.notebooks[j].id == db.notebooks[j].id && db2.notebooks[j].patrimonio == db.notebooks[j].patrimonio
  {
    var db1 := OpenLoan(db, loan);
    var db2 := CloseLoan(db1, i, later);
    forall j | 0 <= j < |db.notebooks|
      ensures db2.notebooks[j].id == db.notebooks[j].id && db2.notebooks[j].patrimonio == db.notebooks[j].patrimonio
    {
      assert db1.notebooks[j].id == db.notebooks[j].id && db1.notebooks[j].patrimonio == db.notebooks[j].patrimonio;
    }
  }

  /** A checkout whose asset tag names a notebook with an ATIVO loan is
      refused with `NotebookInUse`, whatever the notebook's status says. */
  lemma CheckoutRefusesTakenNotebook(db: Db, alunoId: Option<int>, patrimonio: string, now: int, k: int, n: int)
    requires TruthyId(alunoId) && patrimonio != ""
    requires 0 <= k < |db.notebooks| && db.notebooks[k].patrimonio == patrimonio
    requires forall j :: 0 <= j < k ==> db.notebooks[j].patrimonio != patrimonio
    requires 0 <= n < |db.loans| && db.loans[n].notebookId == db.notebooks[k].id && db.loans[n].status == Ativo
    ensures Checkout(db, alunoId, Some(patrimonio), now).0 == Failure(NotebookInUse)
  {
    FindIsFirst(db.notebooks, WithPatrimonio(patrimonio), k);
    assert ActiveOnNotebook(db.notebooks[k].id)(db.loans[n]);
  }

  /** Round trip: a student checks a notebook out and then returns. When the
      student held no ATIVO loan before, the return closes exactly the new
      loan and reports its notebook's asset tag; afterwards the notebook table
      is as before (the notebook is DISPONIVEL again) and the loan table only
      gained the closed loan. When the student already held one, the return
      closes the first of those and the new loan stays ATIVO. */
  lemma CheckoutThenReturn(db: Db, alunoId: int, patrimonio: string, now: int, later: int)
    requires Consistent(db)
    requires Checkout(db, Some(alunoId), Some(patrimonio), now).0.Success?
    ensures var (r1, db1) := Checkout(db, Some(alunoId), Some(patrimonio), now);
      && LoansLinked(db1)
      && var (r2, db2) := Devolver(db1, Some(alunoId), later);
      && r2.Success?
      && (HoldsNoActiveLoan(db.loans, alunoId) ==>
            && r2.value.emprestimoId == r1.value.id
            && r2.value.patrimonio == patrimonio
            && db2.notebooks == db.notebooks
            && db2.loans == db.loans + [r1.value.(status := Devolvido, dataDevolucao := Some(later))])
      && (!HoldsNoActiveLoan(db.loans, alunoId) ==>
            var i := ActiveLoanIndex(db.loans, alunoId);
            && 0 <= i < |db.loans| && db.loans[i].alunoId == alunoId && db.loans[i].status == Ativo
            && (forall j :: 0 <= j < i ==> !(db.loans[j].alunoId == alunoId && db.loans[j].status == Ativo))
            && r2.value.emprestimoId == db.loans[i].id
            && db2 == CloseLoan(db1, i, later)
            && db2.loans[|db.loans|] == r1.value)
  {
    var (r1, db1) := Checkout(db, Some(alunoId), Some(patrimonio), now);
    CheckoutPreservesConsistency(db, Some(alunoId), Some(patrimonio), now);
    CheckoutSuccess(db, Some(alunoId), Some(patrimonio), now);
    var loan := r1.value;
    assert db1 == OpenLoan(db, loan);
    if HoldsNoActiveLoan(db.loans, alunoId) {
      var k :| 0 <= k < |db.notebooks| && db.notebooks[k].id == loan.notebookId &&
               db.notebooks[k].patrimonio == patrimonio && db.notebooks[k].status == Disponivel;
      OpenThenReturn(db, loan, k, later);
    } else {
      var i := ActiveLoanIndex(db.loans, alunoId);
      assert ActiveOfAluno(alunoId)(db.loans[i]);
      ReturnClosesPriorLoan(db, alunoId, patrimonio, now, later, i);
    }
  }

  /** A checkout looks at the loan table only through its ATIVO loans: adding a
      closed loan (and advancing the key counter) changes no refusal and no
      success into a refusal. */
  lemma CheckoutIgnoresClosedLoan(db: Db, db': Db, closed: Loan,
                                  alunoId: Option<int>, patrimonio: Option<string>, now: int)
    requires closed.status == Devolvido
    requires db'.loans == db.loans + [closed]
    requires db'.notebooks == db.notebooks && db'.reservas == db.reservas && db'.alunos == db.alunos
    ensures Checkout(db', alunoId, patrimonio, now).0.Success? <==> Checkout(db, alunoId, patrimonio, now).0.Success?
    ensures Checkout(db', alunoId, patrimonio, now).0.Failure? ==>
              Checkout(db', alunoId, patrimonio, now).0 == Checkout(db, alunoId, patrimonio, now).0
  {
    if TruthyId(alunoId) && TruthyText(patrimonio) {
      var nb := Find(db.notebooks, WithPatrimonio(patrimonio.value));
      if nb.Some? {
        FindAppendMiss(db.loans, closed, ActiveOnNotebook(nb.value.id));
        var reserva := MostRecent(db.reservas, Qualifying(db.alunos, alunoId.value, now));
        if reserva.Some? {
          FilterCountAppend(db.loans, closed, ActiveOnReserva(reserva.value.id));
        }
      }
    }
  }

  /** After such a round trip by a student who held no ATIVO loan, every
      checkout request is answered as it would have been before it (only the
      key of a new loan differs): the notebook is available again and the
      reservation's quota is freed. When the student already held an ATIVO
      loan, the notebook just taken stays out: its asset tag is refused with
      `NotebookInUse`. */
  lemma RoundTripRestoresAvailability(db: Db, alunoId: int, patrimonio: string, now: int, later: int,
                                      alunoId2: Option<int>, patrimonio2: Option<string>, now2: int)
    requires Consistent(db)
    requires Checkout(db, Some(alunoId), Some(patrimonio), now).0.Success?
    ensures var db1 := Checkout(db, Some(alunoId), Some(patrimonio), now).1;
      && LoansLinked(db1)
      && var db2 := Devolver(db1, Some(alunoId), later).1;
      && (HoldsNoActiveLoan(db.loans, alunoId) ==>
            && (Checkout(db2, alunoId2, patrimonio2, now2).0.Success? <==> Checkout(db, alunoId2, patrimonio2, now2).0.Success?)
            && (Checkout(db2, alunoId2, patrimonio2, now2).0.Failure? ==>
                  Checkout(db2, alunoId2, patrimonio2, now2).0 == Checkout(db, alunoId2, patrimonio2, now2).0))
      && (!HoldsNoActiveLoan(db.loans, alunoId) && TruthyId(alunoId2) && patrimonio2 == Some(patrimonio) ==>
            Checkout(db2, alunoId2, patrimonio2, now2).0 == Failure(NotebookInUse))
  {
    CheckoutThenReturn(db, alunoId, patrimonio, now, later);
    var (r1, db1) := Checkout(db, Some(alunoId), Some(patrimonio), now);
    var db2 := Devolver(db1, Some(alunoId), later).1;
    if HoldsNoActiveLoan(db.loans, alunoId) {
      var closed := r1.value.(status := Devolvido, dataDevolucao := Some(later));
      assert db2.reservas == db.reservas && db2.alunos == db.alunos;
      CheckoutIgnoresClosedLoan(db, db2, closed, alunoId2, patrimonio2, now2);
    } else if TruthyId(alunoId2) && patrimonio2 == Some(patrimonio) {
      var i := ActiveLoanIndex(db.loans, alunoId);
      assert ActiveOfAluno(alunoId)(db.loans[i]);
      PriorReturnLeavesNotebookOut(db, alunoId, patrimonio, now, later, i, alunoId2, now2);
    }
  }

  /** A consistent ledger with two free notebooks, one student enrolled in
      subject 10, and a reservation for that subject today with quota 2. */
  function SampleDb(): (db: Db)
    ensures |db.notebooks| == 2 && |db.loans| == 0
  {
    Db([Notebook(1, "A", "m", Disponivel), Notebook(2, "B", "m", Disponivel)],
       [],
       [Reserva(1, 10, 0, 0, 2, Ativa, "", None, None, None)],
       [Aluno(1, "x", "1", "", [], [Materia(10, "M", "c")])],
       3, 1, 2)
  }

  lemma SampleIsConsistent()
    ensures Consistent(SampleDb())
  {
  }

  lemma SampleReservaQualifies(db: Db)
    requires db.reservas == SampleDb().reservas && db.alunos == SampleDb().alunos
    ensures MostRecent(db.reservas, Qualifying(db.alunos, 1, 0)) == Some(db.reservas[0])
  {
    assert db.alunos[0].materias[0].id == 10;
    assert Enrolled(db.alunos, 1, 10);
    assert Qualifying(db.alunos, 1, 0)(db.reservas[0]);
  }

  lemma SampleFirstCheckout()
    ensures Checkout(SampleDb(), Some(1), Some("A"), 0).0 == Success(Loan(1, 1, 1, 1, 0, None, Ativo))
  {
    var db := SampleDb();
    SampleReservaQualifies(db);
    FindIsFirst(db.notebooks, WithPatrimonio("A"), 0);
  }

  lemma SampleSecondCheckout()
    ensures var db1 := OpenLoan(SampleDb(), Loan(1, 1, 1, 1, 0, None, Ativo));
      Checkout(db1, Some(1), Some("B"), 0).0 == Success(Loan(2, 1, 2, 1, 0, None, Ativo))
  {
    var loan := Loan(1, 1, 1, 1, 0, None, Ativo);
    var db1 := OpenLoan(SampleDb(), loan);
    SampleReservaQualifies(db1);
    assert db1.notebooks[1].patrimonio == "B" && db1.notebooks[1].id == 2 && db1.notebooks[1].status == Disponivel;
    assert db1.notebooks[0].patrimonio == "A";
    FindIsFirst(db1.notebooks, WithPatrimonio("B"), 1);
    assert db1.loans == [loan];
    assert Find(db1.loans, ActiveOnNotebook(2)).None?;
    OpenLoanCount(SampleDb(), loan, 1);
  }

  /** Unlike the older route, checkout does not refuse a student who already
      holds an ATIVO loan: from a consistent ledger the same student takes two
      notebooks against one reservation with quota 2, and afterwards holds two
      ATIVO loans. */
  lemma CheckoutAllowsSecondLoanPerStudent()
    ensures Consistent(SampleDb())
    ensures var (r1, db1) := Checkout(SampleDb(), Some(1), Some("A"), 0);
      && r1.Success?
      && var (r2, db2) := Checkout(db1, Some(1), Some("B"), 0);
      && r2.Success?
      && !OneActivePerAluno(db2.loans)
  {
    SampleIsConsistent();
    SampleFirstCheckout();
    SampleSecondCheckout();
    var db2 := Checkout(Checkout(SampleDb(), Some(1), Some("A"), 0).1, Some(1), Some("B"), 0).1;
    assert db2.loans[0].alunoId == 1 && db2.loans[1].alunoId == 1;
  }

  /** The ledger after the two checkouts of that example. */
  function SampleTwoLoansDb(): Db
  {
    OpenLoan(OpenLoan(SampleDb(), Loan(1, 1, 1, 1, 0, None, Ativo)), Loan(2, 1, 2, 1, 0, None, Ativo))
  }

  lemma SampleTwoLoans()
    ensures Checkout(Checkout(SampleDb(), Some(1), Some("A"), 0).1, Some(1), Some("B"), 0).1 == SampleTwoLoansDb()
    ensures LoansLinked(SampleTwoLoansDb())
  {
    SampleIsConsistent();
    SampleFirstCheckout();
    SampleSecondCheckout();
    var db1 := Checkout(SampleDb(), Some(1), Some("A"), 0).1;
    CheckoutPreservesConsistency(SampleDb(), Some(1), Some("A"), 0);
    CheckoutPreservesConsistency(db1, Some(1), Some("B"), 0);
  }

  /** The return on that ledger closes the loan on notebook "A". */
  lemma SampleReturn()
    requires LoansLinked(SampleTwoLoansDb())
    ensures var (r3, db3) := Devolver(SampleTwoLoansDb(), Some(1), 5);
      && r3 == Success(Devolucao(1, "A", "x"))
      && db3 == CloseLoan(SampleTwoLoansDb(), 0, 5)
  {
    var db2 := SampleTwoLoansDb();
    assert db2.loans[0] == Loan(1, 1, 1, 1, 0, None, Ativo);
    assert db2.notebooks[0].id == 1 && db2.notebooks[0].patrimonio == "A";
    DevolverClosesFirstActive(db2, 1, 5, 0);
    FindIsFirst(db2.notebooks, WithNotebookId(1), 0);
    FindIsFirst(db2.alunos, WithAlunoId(1), 0);
  }

  /** Continuing that example: the student returns "the" notebook. The return
      closes the older loan (notebook "A", which becomes DISPONIVEL) while the
      loan on notebook "B" stays ATIVO and "B" stays EM_USO. */
  lemma SampleReturnClosesOlderLoan()
    ensures Checkout(Checkout(SampleDb(), Some(1), Some("A"), 0).1, Some(1), Some("B"), 0).1 == SampleTwoLoansDb()
    ensures LoansLinked(SampleTwoLoansDb())
    ensures var (r3, db3) := Devolver(SampleTwoLoansDb(), Some(1), 5);
      && r3 == Success(Devolucao(1, "A", "x"))
      && db3.loans[0].status == Devolvido && db3.notebooks[0].status == Disponivel
      && db3.loans[1].status == Ativo && db3.notebooks[1].status == EmUso
  {
    SampleTwoLoans();
    SampleReturn();
    var db2 := SampleTwoLoansDb();
    assert db2.loans[1] == Loan(2, 1, 2, 1, 0, None, Ativo);
    assert db2.notebooks[0].id == 1 && db2.notebooks[1].id == 2 && db2.notebooks[1].status == EmUso;
    var db3 := CloseLoan(db2, 0, 5);
    assert db3.notebooks[1] == db2.notebooks[1];
  }
}
