/** The database tables the loan routes read and write, the row lookups they
    make, and the consistency the ledger keeps. */
module Tables {
  import opened Wrappers
  import opened Seqs

  datatype NotebookStatus = Disponivel | EmUso | Manutencao
  datatype LoanStatus = Ativo | Devolvido
  datatype ReservaStatus = Ativa | Cancelada

  /** A physical unit; `patrimonio` is its unique asset tag. */
  datatype Notebook = Notebook(id: int, patrimonio: string, modelo: string, status: NotebookStatus)

  /** A loan (`emprestimo`); instants are epoch milliseconds. */
  datatype Loan = Loan(
    id: int, alunoId: int, notebookId: int, reservaId: int,
    dataRetirada: int, dataDevolucao: Option<int>, status: LoanStatus)

  datatype Materia = Materia(id: int, nome: string, codigo: string)

  /** A student with the subjects the student is enrolled in, in enrolment order. */
  datatype Aluno = Aluno(
    id: int, nome: string, matricula: string, foto: string,
    embedding: seq<real>, materias: seq<Materia>)

  /** A teacher's booking of `qtdNotebooks` units for one class of a subject.
      The names of its subject, teacher and class are those of the joined rows
      (None when the relation is empty). */
  datatype Reserva = Reserva(
    id: int, materiaId: int, dataAula: int, createdAt: int, qtdNotebooks: int,
    status: ReservaStatus, horario: string,
    materiaNome: Option<string>, professorNome: Option<string>, turmaNome: Option<string>)

  /** The tables, and the next value of each auto-increment key. */
  datatype Db = Db(
    notebooks: seq<Notebook>, loans: seq<Loan>, reservas: seq<Reserva>, alunos: seq<Aluno>,
    nextNotebookId: int, nextLoanId: int, nextAlunoId: int)

  // ---------------------------------------------------------------------
  // Row filters (one named filter per query, so that every use is the same one)

  function WithPatrimonio(p: string): Notebook -> bool { (n: Notebook) => n.patrimonio == p }
  function WithNotebookId(id: int): Notebook -> bool { (n: Notebook) => n.id == id }
  function WithAlunoId(id: int): Aluno -> bool { (a: Aluno) => a.id == id }
  function WithMatricula(m: string): Aluno -> bool { (a: Aluno) => a.matricula == m }
  function ActiveOnNotebook(id: int): Loan -> bool { (l: Loan) => l.notebookId == id && l.status == Ativo }
  function ActiveOnReserva(id: int): Loan -> bool { (l: Loan) => l.reservaId == id && l.status == Ativo }
  function ActiveOfAluno(id: int): Loan -> bool { (l: Loan) => l.alunoId == id && l.status == Ativo }

  /** `_count` of the ATIVO loans of a reservation. */
  function ActiveCount(loans: seq<Loan>, reservaId: int): nat
  {
    |Filter(loans, ActiveOnReserva(reservaId))|
  }

  predicate NotebookExists(ns: seq<Notebook>, id: int) { exists k :: 0 <= k < |ns| && ns[k].id == id }
  predicate AlunoExists(as_: seq<Aluno>, id: int) { exists k :: 0 <= k < |as_| && as_[k].id == id }
  predicate ReservaExists(rs: seq<Reserva>, id: int) { exists k :: 0 <= k < |rs| && rs[k].id == id }

  /** `notebook.update({ where: { id }, data: { status } })`. */
  function SetNotebookStatus(ns: seq<Notebook>, id: int, st: NotebookStatus): (r: seq<Notebook>)
    ensures |r| == |ns|
    ensures forall k :: 0 <= k < |ns| ==>
              r[k].id == ns[k].id && r[k].patrimonio == ns[k].patrimonio && r[k].modelo == ns[k].modelo
    ensures forall k :: 0 <= k < |ns| ==> r[k].status == if ns[k].id == id then st else ns[k].status
  {
    seq(|ns|, k requires 0 <= k < |ns| => if ns[k].id == id then ns[k].(status := st) else ns[k])
  }

  /** Setting a status twice keeps only the second; setting the status a row
      already has changes nothing. */
  lemma SetNotebookStatusRestores(ns: seq<Notebook>, id: int, st: NotebookStatus)
    requires forall k :: 0 <= k < |ns| && ns[k].id == id ==> ns[k].status == st
    ensures forall other :: SetNotebookStatus(SetNotebookStatus(ns, id, other), id, st) == ns
  {
  }

  // ---------------------------------------------------------------------
  // Consistency of the tables

  predicate UniqueNotebooks(ns: seq<Notebook>)
  {
    forall i, j :: 0 <= i < j < |ns| ==> ns[i].id != ns[j].id && ns[i].patrimonio != ns[j].patrimonio
  }

  predicate UniqueLoanIds(ls: seq<Loan>)
  {
    forall i, j :: 0 <= i < j < |ls| ==> ls[i].id != ls[j].id
  }

  predicate UniqueReservaIds(rs: seq<Reserva>)
  {
    forall i, j :: 0 <= i < j < |rs| ==> rs[i].id != rs[j].id
  }

  predicate UniqueAlunos(as_: seq<Aluno>)
  {
    forall i, j :: 0 <= i < j < |as_| ==> as_[i].id != as_[j].id && as_[i].matricula != as_[j].matricula
  }

  /** Auto-increment keys: every row's id is below the next one handed out. */
  predicate KeysBelowCounters(db: Db)
  {
    && (forall k :: 0 <= k < |db.notebooks| ==> db.notebooks[k].id < db.nextNotebookId)
    && (forall k :: 0 <= k < |db.loans| ==> db.loans[k].id < db.nextLoanId)
    && (forall k :: 0 <= k < |db.alunos| ==> db.alunos[k].id < db.nextAlunoId)
  }

  /** Foreign keys: a loan refers to an existing notebook, student and reservation. */
  predicate LoansLinked(db: Db)
  {
    forall k :: 0 <= k < |db.loans| ==>
      && NotebookExists(db.notebooks, db.loans[k].notebookId)
      && AlunoExists(db.alunos, db.loans[k].alunoId)
      && ReservaExists(db.reservas, db.loans[k].reservaId)
  }

  /** I1: at most one ATIVO loan per notebook. */
  predicate OneActivePerNotebook(ls: seq<Loan>)
  {
    forall i, j :: 0 <= i < j < |ls| && ls[i].status == Ativo && ls[j].status == Ativo ==>
      ls[i].notebookId != ls[j].notebookId
  }

  /** At most one ATIVO loan per student (kept by the older checkout only). */
  predicate OneActivePerAluno(ls: seq<Loan>)
  {
    forall i, j :: 0 <= i < j < |ls| && ls[i].status == Ativo && ls[j].status == Ativo ==>
      ls[i].alunoId != ls[j].alunoId
  }

  /** I2: no reservation has more ATIVO loans than `qtdNotebooks`. */
  predicate QuotaRespected(db: Db)
  {
    forall k :: 0 <= k < |db.reservas| ==>
      ActiveCount(db.loans, db.reservas[k].id) <= db.reservas[k].qtdNotebooks
  }

  /** A notebook with an ATIVO loan is EM_USO. */
  predicate ActiveMeansInUse(db: Db)
  {
    forall i, j ::
      0 <= i < |db.loans| && 0 <= j < |db.notebooks| &&
      db.loans[i].status == Ativo && db.loans[i].notebookId == db.notebooks[j].id
      ==> db.notebooks[j].status == EmUso
  }

  /** Every rule of `Consistent` but the quota (I2). */
  predicate ConsistentButQuota(db: Db)
  {
    && UniqueNotebooks(db.notebooks)
    && UniqueLoanIds(db.loans)
    && UniqueReservaIds(db.reservas)
    && UniqueAlunos(db.alunos)
    && KeysBelowCounters(db)
    && LoansLinked(db)
    && OneActivePerNotebook(db.loans)
    && ActiveMeansInUse(db)
  }

  predicate Consistent(db: Db)
  {
    && UniqueNotebooks(db.notebooks)
    && UniqueLoanIds(db.loans)
    && UniqueReservaIds(db.reservas)
    && UniqueAlunos(db.alunos)
    && KeysBelowCounters(db)
    && LoansLinked(db)
    && OneActivePerNotebook(db.loans)
    && QuotaRespected(db)
    && ActiveMeansInUse(db)
  }

  /** With unique ids, an id names one row. */
  lemma UniqueReservaId(rs: seq<Reserva>, i: int, j: int)
    requires UniqueReservaIds(rs)
    requires 0 <= i < |rs| && 0 <= j < |rs| && rs[i].id == rs[j].id
    ensures i == j
  {
  }

  // ---------------------------------------------------------------------
  // The two writes of the ledger: opening a loan and closing one

  /** Insert `loan` and set its notebook EM_USO (the checkout transaction). */
  function OpenLoan(db: Db, loan: Loan): (r: Db)
    ensures r.loans == db.loans + [loan]
    ensures r.notebooks == SetNotebookStatus(db.notebooks, loan.notebookId, EmUso)
    ensures r.reservas == db.reservas && r.alunos == db.alunos
  {
    db.(loans := db.loans + [loan],
        notebooks := SetNotebookStatus(db.notebooks, loan.notebookId, EmUso),
        nextLoanId := db.nextLoanId + 1)
  }

  /** Mark loan `i` DEVOLVIDO at `now` and set its notebook DISPONIVEL (the return transaction). */
  function CloseLoan(db: Db, i: int, now: int): (r: Db)
    requires 0 <= i < |db.loans|
    ensures r.loans == db.loans[i := db.loans[i].(status := Devolvido, dataDevolucao := Some(now))]
    ensures r.notebooks == SetNotebookStatus(db.notebooks, db.loans[i].notebookId, Disponivel)
    ensures r.reservas == db.reservas && r.alunos == db.alunos && r.nextLoanId == db.nextLoanId
  {
    db.(loans := db.loans[i := db.loans[i].(status := Devolvido, dataDevolucao := Some(now))],
        notebooks := SetNotebookStatus(db.notebooks, db.loans[i].notebookId, Disponivel))
  }

  lemma SetNotebookStatusKeepsExists(ns: seq<Notebook>, id: int, st: NotebookStatus, other: int)
    requires NotebookExists(ns, other)
    ensures NotebookExists(SetNotebookStatus(ns, id, st), other)
  {
    var k :| 0 <= k < |ns| && ns[k].id == other;
    assert SetNotebookStatus(ns, id, st)[k].id == other;
  }

  /** Opening a loan with the next key on an existing notebook, student and
      reservation keeps keys unique and foreign keys valid. */
  lemma OpenLoanKeepsKeys(db: Db, loan: Loan)
    requires UniqueNotebooks(db.notebooks) && UniqueLoanIds(db.loans)
    requires KeysBelowCounters(db) && LoansLinked(db)
    requires loan.id == db.nextLoanId
    requires NotebookExists(db.notebooks, loan.notebookId)
    requires AlunoExists(db.alunos, loan.alunoId) && ReservaExists(db.reservas, loan.reservaId)
    ensures var r := OpenLoan(db, loan);
      UniqueNotebooks(r.notebooks) && UniqueLoanIds(r.loans) && KeysBelowCounters(r) && LoansLinked(r)
  {
    var r := OpenLoan(db, loan);
    forall k | 0 <= k < |r.loans|
      ensures NotebookExists(r.notebooks, r.loans[k].notebookId)
    {
      SetNotebookStatusKeepsExists(db.notebooks, loan.notebookId, EmUso, r.loans[k].notebookId);
    }
  }

  /** Opening a loan on a notebook that has no ATIVO loan keeps I1. */
  lemma OpenLoanKeepsOneActive(ls: seq<Loan>, loan: Loan)
    requires OneActivePerNotebook(ls)
    requires forall k :: 0 <= k < |ls| ==> !ActiveOnNotebook(loan.notebookId)(ls[k])
    ensures OneActivePerNotebook(ls + [loan])
  {
  }

  /** Opening a loan keeps "an ATIVO loan's notebook is EM_USO". */
  lemma OpenLoanKeepsInUse(db: Db, loan: Loan)
    requires ActiveMeansInUse(db)
    ensures ActiveMeansInUse(OpenLoan(db, loan))
  {
  }

  /** Opening an ATIVO loan adds one to its own reservation's count and to no other. */
  lemma OpenLoanCount(db: Db, loan: Loan, reservaId: int)
    requires loan.status == Ativo
    ensures ActiveCount(OpenLoan(db, loan).loans, reservaId) ==
            ActiveCount(db.loans, reservaId) + (if loan.reservaId == reservaId then 1 else 0)
  {
    FilterCountAppend(db.loans, loan, ActiveOnReserva(reservaId));
  }

  /** Closing the ATIVO loan `i` removes one from its own reservation's count and from no other. */
  lemma CloseLoanCount(db: Db, i: int, now: int, reservaId: int)
    requires 0 <= i < |db.loans| && db.loans[i].status == Ativo
    ensures ActiveCount(CloseLoan(db, i, now).loans, reservaId) ==
            ActiveCount(db.loans, reservaId) - (if db.loans[i].reservaId == reservaId then 1 else 0)
  {
    FilterCountUpdate(db.loans, i, db.loans[i].(status := Devolvido, dataDevolucao := Some(now)),
                      ActiveOnReserva(reservaId));
  }

  /** Closing a loan keeps keys, foreign keys, I1 and I2. */
  lemma CloseLoanKeepsKeys(db: Db, i: int, now: int)
    requires 0 <= i < |db.loans|
    requires UniqueNotebooks(db.notebooks) && UniqueLoanIds(db.loans)
    requires KeysBelowCounters(db) && LoansLinked(db) && OneActivePerNotebook(db.loans)
    ensures var r := CloseLoan(db, i, now);
      UniqueNotebooks(r.notebooks) && UniqueLoanIds(r.loans) && KeysBelowCounters(r) &&
      LoansLinked(r) && OneActivePerNotebook(r.loans)
  {
    var r := CloseLoan(db, i, now);
    forall k | 0 <= k < |r.loans|
      ensures NotebookExists(r.notebooks, r.loans[k].notebookId)
    {
      SetNotebookStatusKeepsExists(db.notebooks, db.loans[i].notebookId, Disponivel, r.loans[k].notebookId);
    }
  }

  lemma CloseLoanKeepsQuota(db: Db, i: int, now: int)
    requires 0 <= i < |db.loans| && db.loans[i].status == Ativo
    requires QuotaRespected(db)
    ensures QuotaRespected(CloseLoan(db, i, now))
  {
    forall k | 0 <= k < |db.reservas|
      ensures ActiveCount(CloseLoan(db, i, now).loans, db.reservas[k].id) <= db.reservas[k].qtdNotebooks
    {
      CloseLoanCount(db, i, now, db.reservas[k].id);
    }
  }

  /** Closing the only ATIVO loan of its notebook keeps "ATIVO means EM_USO". */
  lemma CloseLoanKeepsInUse(db: Db, i: int, now: int)
    requires 0 <= i < |db.loans| && db.loans[i].status == Ativo
    requires OneActivePerNotebook(db.loans) && ActiveMeansInUse(db)
    ensures ActiveMeansInUse(CloseLoan(db, i, now))
  {
    var r := CloseLoan(db, i, now);
    forall a, j | 0 <= a < |r.loans| && 0 <= j < |r.notebooks| &&
                  r.loans[a].status == Ativo && r.loans[a].notebookId == r.notebooks[j].id
      ensures r.notebooks[j].status == EmUso
    {
      assert a != i;
      assert db.loans[a].notebookId != db.loans[i].notebookId by {
        if a < i { assert db.loans[a].status == Ativo; } else { assert db.loans[a].status == Ativo; }
      }
    }
  }

  /** Opening a loan on a notebook with no ATIVO loan, against a reservation
      below its quota, keeps the whole ledger consistent. */
  lemma OpenLoanKeepsConsistency(db: Db, loan: Loan, m: int)
    requires Consistent(db)
    requires loan.id == db.nextLoanId && loan.status == Ativo
    requires NotebookExists(db.notebooks, loan.notebookId) && AlunoExists(db.alunos, loan.alunoId)
    requires 0 <= m < |db.reservas| && db.reservas[m].id == loan.reservaId
    requires ActiveCount(db.loans, loan.reservaId) < db.reservas[m].qtdNotebooks
    requires forall j :: 0 <= j < |db.loans| ==> !ActiveOnNotebook(loan.notebookId)(db.loans[j])
    ensures Consistent(OpenLoan(db, loan))
  {
    OpenLoanKeepsKeys(db, loan);
    OpenLoanKeepsOneActive(db.loans, loan);
    OpenLoanKeepsInUse(db, loan);
    forall j | 0 <= j < |db.reservas|
      ensures ActiveCount(OpenLoan(db, loan).loans, db.reservas[j].id) <= db.reservas[j].qtdNotebooks
    {
      OpenLoanCount(db, loan, db.reservas[j].id);
      if db.reservas[j].id == loan.reservaId {
        UniqueReservaId(db.reservas, j, m);
      }
    }
  }
}
