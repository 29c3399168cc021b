/** The browser-side loan ledger: three lists of records (students, notebooks,
    loans) with upsert by id, delete by id, an in-place status change and
    first-match lookups. Ids, names and instants are text, as the client
    keeps them. */
module Store {
  import opened Wrappers
  import opened Seqs

  datatype NotebookState = Disponivel | Emprestado | Manutencao
  datatype LoanState = Ativo | Devolvido

  datatype Student = Student(
    id: string, name: string, matricula: string, curso: string,
    photoUrl: Option<string>, createdAt: string)

  datatype Notebook = Notebook(id: string, patrimonio: string, modelo: string, status: NotebookState, createdAt: string)

  datatype Loan = Loan(
    id: string, notebookId: string, studentId: string, patrimonio: string,
    studentName: string, studentMatricula: string,
    photoAtLoan: Option<string>, photoAtReturn: Option<string>,
    loanDate: string, returnDate: Option<string>, status: LoanState)

  function StudentId(s: Student): string { s.id }
  function NotebookId(n: Notebook): string { n.id }
  function LoanId(l: Loan): string { l.id }

  // ---------------------------------------------------------------------
  // Upsert and delete by id, for any of the three record kinds

  function HasKey<T>(key: T -> string, k: string): T -> bool { (x: T) => key(x) == k }
  function LacksKey<T>(key: T -> string, k: string): T -> bool { (x: T) => key(x) != k }

  predicate UniqueKeys<T>(s: seq<T>, key: T -> string)
  {
    forall i, j :: 0 <= i < j < |s| ==> key(s[i]) != key(s[j])
  }

  /** Save `x`: it replaces the first record with its id, in place, or is
      appended when no record has that id. */
  function Upsert<T>(s: seq<T>, x: T, key: T -> string): (r: seq<T>)
    ensures |s| <= |r| <= |s| + 1
    ensures var i := FirstIndex(s, HasKey(key, key(x)));
      && (i >= 0 ==> |r| == |s| && r[i] == x && forall k :: 0 <= k < |s| && k != i ==> r[k] == s[k])
      && (i < 0 ==> |r| == |s| + 1 && r[|s|] == x && forall k :: 0 <= k < |s| ==> r[k] == s[k])
  {
    var i := FirstIndex(s, HasKey(key, key(x)));
    if i >= 0 then s[i := x] else s + [x]
  }

  /** After a save, a lookup by that id finds the saved record. */
  lemma UpsertThenFind<T>(s: seq<T>, x: T, key: T -> string)
    ensures Find(Upsert(s, x, key), HasKey(key, key(x))) == Some(x)
  {
    var p := HasKey(key, key(x));
    var r := Upsert(s, x, key);
    var i := FirstIndex(s, p);
    if i >= 0 {
      FindIsFirst(r, p, i);
    } else {
      FindIsFirst(r, p, |s|);
    }
  }

  /** Saving keeps ids unique. */
  lemma UpsertKeepsUniqueKeys<T>(s: seq<T>, x: T, key: T -> string)
    requires UniqueKeys(s, key)
    ensures UniqueKeys(Upsert(s, x, key), key)
  {
    var r := Upsert(s, x, key);
    var i := FirstIndex(s, HasKey(key, key(x)));
    forall a, b | 0 <= a < b < |r| ensures key(r[a]) != key(r[b]) {
      if i >= 0 && (a == i || b == i) {
        var other := if a == i then b else a;
        assert key(s[other]) != key(s[i]);
      } else if i < 0 && b == |s| {
        assert !HasKey(key, key(x))(s[a]);
      }
    }
  }

  /** Saving the same record twice is saving it once. */
  lemma UpsertIdempotent<T>(s: seq<T>, x: T, key: T -> string)
    ensures Upsert(Upsert(s, x, key), x, key) == Upsert(s, x, key)
  {
    var r := Upsert(s, x, key);
    var p := HasKey(key, key(x));
    var i := FirstIndex(s, p);
    if i >= 0 {
      FindIsFirst(r, p, i);
      assert r[i := x] == r;
    } else {
      FindIsFirst(r, p, |s|);
      assert r[|s| := x] == r;
    }
  }

  /** Remove every record with id `k`; the others keep their order. */
  function DeleteByKey<T>(s: seq<T>, key: T -> string, k: string): (r: seq<T>)
    ensures forall j :: 0 <= j < |r| ==> key(r[j]) != k
    ensures forall j :: 0 <= j < |s| && key(s[j]) != k ==> s[j] in r
    ensures forall j :: 0 <= j < |r| ==> r[j] in s
    ensures multiset(r) <= multiset(s)
    ensures forall j :: 0 <= j < |s| ==> multiset(r)[s[j]] == if key(s[j]) != k then multiset(s)[s[j]] else 0
  {
    FilterMultiset(s, LacksKey(key, k));
    Filter(s, LacksKey(key, k))
  }

  /** Deleting from a concatenation deletes from each part, and a single
      record survives exactly when its id differs: together these say the
      survivors keep their stored order. */
  lemma DeleteByKeyConcat<T>(a: seq<T>, b: seq<T>, key: T -> string, k: string)
    ensures DeleteByKey(a + b, key, k) == DeleteByKey(a, key, k) + DeleteByKey(b, key, k)
  {
    FilterConcat(a, b, LacksKey(key, k));
  }

  lemma DeleteByKeySingle<T>(x: T, key: T -> string, k: string)
    ensures DeleteByKey([x], key, k) == if key(x) != k then [x] else []
  {
    FilterStep([x], LacksKey(key, k));
    assert [x][1..] == [];
  }

  /** Deleting an id nobody has changes nothing. */
  lemma DeleteAbsentKey<T>(s: seq<T>, key: T -> string, k: string)
    requires forall j :: 0 <= j < |s| ==> key(s[j]) != k
    ensures DeleteByKey(s, key, k) == s
  {
    FilterKeepsAll(s, LacksKey(key, k));
  }

  /** Deleting the id of a record just saved undoes the save as far as every
      other record is concerned. */
  lemma DeleteUndoesUpsert<T>(s: seq<T>, x: T, key: T -> string)
    ensures DeleteByKey(Upsert(s, x, key), key, key(x)) == DeleteByKey(s, key, key(x))
  {
    var p := LacksKey(key, key(x));
    var i := FirstIndex(s, HasKey(key, key(x)));
    if i >= 0 {
      FilterUpdateDropped(s, i, x, p);
    } else {
      FilterConcat(s, [x], p);
      assert Filter([x], p) == [];
    }
  }

  // ---------------------------------------------------------------------
  // updateNotebookStatus

  /** The first notebook with id `id` gets status `st`; nothing else changes,
      and nothing at all when no notebook has that id. */
  function SetFirstStatus(ns: seq<Notebook>, id: string, st: NotebookState): (r: seq<Notebook>)
    ensures |r| == |ns|
    ensures var i := FirstIndex(ns, HasKey(NotebookId, id));
      && (i >= 0 ==> r[i] == ns[i].(status := st))
      && forall k :: 0 <= k < |ns| && k != i ==> r[k] == ns[k]
  {
    var i := FirstIndex(ns, HasKey(NotebookId, id));
    if i >= 0 then ns[i := ns[i].(status := st)] else ns
  }

  /** The status change is undone by changing it back. */
  lemma SetFirstStatusRestores(ns: seq<Notebook>, id: string, st: NotebookState)
    requires var i := FirstIndex(ns, HasKey(NotebookId, id)); i >= 0 ==> ns[i].status == st
    ensures forall other :: SetFirstStatus(SetFirstStatus(ns, id, other), id, st) == ns
  {
    var i := FirstIndex(ns, HasKey(NotebookId, id));
    forall other ensures SetFirstStatus(SetFirstStatus(ns, id, other), id, st) == ns {
      var r := SetFirstStatus(ns, id, other);
      if i >= 0 {
        assert NotebookId(r[i]) == NotebookId(ns[i]);
        assert forall j :: 0 <= j < i ==> r[j] == ns[j];
        FindIsFirst(r, HasKey(NotebookId, id), i);
      } else {
        assert r == ns;
      }
    }
  }

  // ---------------------------------------------------------------------
  // Lookups

  function IsActive(): Loan -> bool { (l: Loan) => l.status == Ativo }
  function ActiveWithPatrimonio(p: string): Loan -> bool { (l: Loan) => l.patrimonio == p && l.status == Ativo }
  function NotebookWithPatrimonio(p: string): Notebook -> bool { (n: Notebook) => n.patrimonio == p }
  function StudentWithMatricula(m: string): Student -> bool { (s: Student) => s.matricula == m }

  /** `Find` gives the first match. */
  lemma FindGivesFirst<T>(s: seq<T>, p: T -> bool)
    ensures Find(s, p).Some? ==>
      exists k :: 0 <= k < |s| && s[k] == Find(s, p).value && forall j :: 0 <= j < k ==> !p(s[j])
  {
    var k := FirstIndex(s, p);
    if k >= 0 {
      assert s[k] == Find(s, p).value;
    }
  }

  /** The client's ledger. Saving to the browser's storage is left out: the
      fields are the lists that would be stored. */
  class LocalStore {
    var students: seq<Student>
    var notebooks: seq<Notebook>
    var loans: seq<Loan>

    constructor ()
      ensures students == [] && notebooks == [] && loans == []
    {
      students := [];
      notebooks := [];
      loans := [];
    }

    method SaveStudent(student: Student)
      modifies this
      ensures students == Upsert(old(students), student, StudentId)
      ensures notebooks == old(notebooks) && loans == old(loans)
    {
      var i := FirstIndex(students, HasKey(StudentId, student.id));
      if i >= 0 {
        students := students[i := student];
      } else {
        students := students + [student];
      }
    }

    method DeleteStudent(id: string)
      modifies this
      ensures students == DeleteByKey(old(students), StudentId, id)
      ensures notebooks == old(notebooks) && loans == old(loans)
    {
      students := Filter(students, LacksKey(StudentId, id));
    }

    method SaveNotebook(notebook: Notebook)
      modifies this
      ensures notebooks == Upsert(old(notebooks), notebook, NotebookId)
      ensures students == old(students) && loans == old(loans)
    {
      var i := FirstIndex(notebooks, HasKey(NotebookId, notebook.id));
      if i >= 0 {
        notebooks := notebooks[i := notebook];
      } else {
        notebooks := notebooks + [notebook];
      }
    }

    method DeleteNotebook(id: string)
      modifies this
      ensures notebooks == DeleteByKey(old(notebooks), NotebookId, id)
      ensures students == old(students) && loans == old(loans)
    {
      notebooks := Filter(notebooks, LacksKey(NotebookId, id));
    }

    /** The record `find` returns is the one in the list, so setting its
        status changes the list in place. */
    method UpdateNotebookStatus(id: string, status: NotebookState)
      modifies this
      ensures notebooks == SetFirstStatus(old(notebooks), id, status)
      ensures students == old(students) && loans == old(loans)
    {
      var i := FirstIndex(notebooks, HasKey(NotebookId, id));
      if i >= 0 {
        notebooks := notebooks[i := notebooks[i].(status := status)];
      }
    }

    method SaveLoan(loan: Loan)
      modifies this
      ensures loans == Upsert(old(loans), loan, LoanId)
      ensures students == old(students) && notebooks == old(notebooks)
    {
      var i := FirstIndex(loans, HasKey(LoanId, loan.id));
      if i >= 0 {
        loans := loans[i := loan];
      } else {
        loans := loans + [loan];
      }
    }

    /** The loans with status `ativo`, in stored order. */
    function ActiveLoans(): (r: seq<Loan>)
      reads this
      ensures forall k :: 0 <= k < |r| ==> r[k] in loans && r[k].status == Ativo
      ensures forall k :: 0 <= k < |loans| && loans[k].status == Ativo ==> loans[k] in r
      ensures forall l :: multiset(r)[l] == if l.status == Ativo then multiset(loans)[l] else 0
    {
      FilterMultiset(loans, IsActive());
      Filter(loans, IsActive())
    }

    /** Two active loans are listed in the order they are stored. */
    lemma ActiveLoansInStoredOrder(i: int, j: int) returns (a: int, b: int)
      requires 0 <= i < j < |ActiveLoans()|
      ensures 0 <= a < b < |loans| && ActiveLoans()[i] == loans[a] && ActiveLoans()[j] == loans[b]
    {
      a, b := FilterIndices(loans, IsActive(), i, j);
    }

    /** The first `ativo` loan of the notebook with asset tag `p`. */
    function FindActiveLoanByPatrimonio(p: string): (r: Option<Loan>)
      reads this
      ensures r.None? <==> forall k :: 0 <= k < |loans| ==> !(loans[k].patrimonio == p && loans[k].status == Ativo)
      ensures r.Some? ==>
        && r.value.patrimonio == p && r.value.status == Ativo
        && exists k :: 0 <= k < |loans| && loans[k] == r.value &&
             forall j :: 0 <= j < k ==> !(loans[j].patrimonio == p && loans[j].status == Ativo)
    {
      FindGivesFirst(loans, ActiveWithPatrimonio(p));
      Find(loans, ActiveWithPatrimonio(p))
    }

    function FindNotebookByPatrimonio(p: string): (r: Option<Notebook>)
      reads this
      ensures r.None? <==> forall k :: 0 <= k < |notebooks| ==> notebooks[k].patrimonio != p
      ensures r.Some? ==>
        && r.value.patrimonio == p
        && exists k :: 0 <= k < |notebooks| && notebooks[k] == r.value &&
             forall j :: 0 <= j < k ==> notebooks[j].patrimonio != p
    {
      FindGivesFirst(notebooks, NotebookWithPatrimonio(p));
      Find(notebooks, NotebookWithPatrimonio(p))
    }

    function FindStudentByMatricula(m: string): (r: Option<Student>)
      reads this
      ensures r.None? <==> forall k :: 0 <= k < |students| ==> students[k].matricula != m
      ensures r.Some? ==>
        && r.value.matricula == m
        && exists k :: 0 <= k < |students| && students[k] == r.value &&
             forall j :: 0 <= j < k ==> students[j].matricula != m
    {
      FindGivesFirst(students, StudentWithMatricula(m));
      Find(students, StudentWithMatricula(m))
    }
  }
}
