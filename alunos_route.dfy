/** /api/admin/alunos: enrolling a student with a photo, and the student list. */
module AlunosRoute {
  import opened Wrappers
  import opened Seqs
  import opened Ordering
  import opened JsValues
  import opened Tables

  // ---------------------------------------------------------------------
  // The data-URL prefix `data:image/<word>;base64,` in front of the photo

  /** `\w` in a JavaScript regular expression: ASCII letters, digits and `_`. */
  predicate IsWordChar(c: char)
  {
    ('a' <= c <= 'z') || ('A' <= c <= 'Z') || ('0' <= c <= '9') || c == '_'
  }

  const ImagePrefix: string := "data:image/"
  const Base64Marker: string := ";base64,"

  /** A prefix the pattern `^data:image\/\w+;base64,` matches. */
  predicate IsDataUrlPrefix(p: string)
  {
    && |p| > |ImagePrefix| + |Base64Marker|
    && p[..|ImagePrefix|] == ImagePrefix
    && p[|p| - |Base64Marker|..] == Base64Marker
    && forall k :: |ImagePrefix| <= k < |p| - |Base64Marker| ==> IsWordChar(p[k])
  }

  /** The length of the run of word characters at the start of `s`. */
  function WordRun(s: string): (n: nat)
    ensures n <= |s|
    ensures forall k :: 0 <= k < n ==> IsWordChar(s[k])
    ensures n < |s| ==> !IsWordChar(s[n])
  {
    if |s| == 0 || !IsWordChar(s[0]) then 0 else 1 + WordRun(s[1..])
  }

  /** `fotoBase64.replace(/^data:image\/\w+;base64,/, "")`: the photo text
      without a leading data-URL prefix, and unchanged when it has none. */
  function StripDataUrlPrefix(s: string): (r: string)
    ensures r == s || exists k :: 0 <= k <= |s| && IsDataUrlPrefix(s[..k]) && r == s[k..]
  {
    if |s| < |ImagePrefix| || s[..|ImagePrefix|] != ImagePrefix then s
    else
      var n := WordRun(s[|ImagePrefix|..]);
      var end := |ImagePrefix| + n + |Base64Marker|;
      if n > 0 && end <= |s| && s[|ImagePrefix| + n..end] == Base64Marker then
        assert forall k :: |ImagePrefix| <= k < |ImagePrefix| + n ==> s[..end][k] == s[|ImagePrefix|..][k - |ImagePrefix|];
        assert IsDataUrlPrefix(s[..end]);
        s[end..]
      else s
  }

  /** A photo sent as a data URL loses exactly its prefix. */
  lemma StripRemovesPrefix(p: string, rest: string)
    requires IsDataUrlPrefix(p)
    ensures StripDataUrlPrefix(p + rest) == rest
  {
    var s := p + rest;
    var t := s[|ImagePrefix|..];
    var w := |p| - |ImagePrefix| - |Base64Marker|;
    assert s[..|ImagePrefix|] == p[..|ImagePrefix|];
    forall k | 0 <= k < w ensures IsWordChar(t[k]) {
      assert t[k] == p[|ImagePrefix| + k];
    }
    assert t[w] == p[|p| - |Base64Marker|] == ';';
    WordRunExact(t, w);
    assert s[|ImagePrefix| + w..|p|] == p[|p| - |Base64Marker|..];
    assert s[|p|..] == rest;
  }

  lemma {:induction false} WordRunExact(s: string, w: nat)
    requires w < |s| && !IsWordChar(s[w])
    requires forall k :: 0 <= k < w ==> IsWordChar(s[k])
    ensures WordRun(s) == w
  {
    if w > 0 {
      WordRunExact(s[1..], w - 1);
    }
  }

  /** Text with no data-URL prefix is stored as it came. */
  lemma StripUnchangedWithoutPrefix(s: string)
    requires forall k :: 0 <= k <= |s| ==> !IsDataUrlPrefix(s[..k])
    ensures StripDataUrlPrefix(s) == s
  {
  }

  // ---------------------------------------------------------------------
  // POST: enrolment

  datatype EnrolError =
    | MissingFields       // 400: name, registration number or photo absent or empty
    | DuplicateMatricula  // 409: the unique registration number is taken

  /** POST /api/admin/alunos: insert the student with the photo text stripped
      of its data-URL prefix, an empty face embedding and no subjects. */
  function EnrolStudent(db: Db, nome: Option<string>, matricula: Option<string>, fotoBase64: Option<string>)
    : (r: (Result<Aluno, EnrolError>, Db))
    ensures r.0.Failure? ==> r.1 == db
    ensures r.0 == Failure(MissingFields) <==>
      !TruthyText(nome) || !TruthyText(matricula) || !TruthyText(fotoBase64)
    ensures r.0 == Failure(DuplicateMatricula) <==>
      TruthyText(nome) && TruthyText(matricula) && TruthyText(fotoBase64) &&
      exists k :: 0 <= k < |db.alunos| && db.alunos[k].matricula == matricula.value
    ensures r.0.Success? ==>
      && r.0.value.id == db.nextAlunoId
      && r.0.value.nome == nome.value && r.0.value.matricula == matricula.value
      && r.0.value.foto == StripDataUrlPrefix(fotoBase64.value)
      && r.0.value.embedding == [] && r.0.value.materias == []
      && r.1 == db.(alunos := db.alunos + [r.0.value], nextAlunoId := db.nextAlunoId + 1)
  {
    if !TruthyText(nome) || !TruthyText(matricula) || !TruthyText(fotoBase64) then (Failure(MissingFields), db)
    else if Find(db.alunos, WithMatricula(matricula.value)).Some? then (Failure(DuplicateMatricula), db)
    else
      var a := Aluno(db.nextAlunoId, nome.value, matricula.value, StripDataUrlPrefix(fotoBase64.value), [], []);
      (Success(a), db.(alunos := db.alunos + [a], nextAlunoId := db.nextAlunoId + 1))
  }

  /** Enrolment keeps the ledger consistent. */
  lemma EnrolPreservesConsistency(db: Db, nome: Option<string>, matricula: Option<string>, fotoBase64: Option<string>)
    requires ConsistentButQuota(db)
    ensures ConsistentButQuota(EnrolStudent(db, nome, matricula, fotoBase64).1)
    ensures Consistent(db) ==> Consistent(EnrolStudent(db, nome, matricula, fotoBase64).1)
  {
    var (r, db') := EnrolStudent(db, nome, matricula, fotoBase64);
    if r.Success? {
      forall k | 0 <= k < |db.loans| ensures AlunoExists(db'.alunos, db.loans[k].alunoId) {
        assert AlunoExists(db.alunos, db.loans[k].alunoId);
        var j :| 0 <= j < |db.alunos| && db.alunos[j].id == db.loans[k].alunoId;
        assert db'.alunos[j] == db.alunos[j];
      }
    }
  }

  /** The enrolled student is the one a lookup by registration number finds. */
  lemma EnrolledStudentIsFound(db: Db, nome: Option<string>, matricula: Option<string>, fotoBase64: Option<string>)
    requires EnrolStudent(db, nome, matricula, fotoBase64).0.Success?
    ensures var (r, db') := EnrolStudent(db, nome, matricula, fotoBase64);
      Find(db'.alunos, WithMatricula(matricula.value)) == Some(r.value)
  {
    var (r, db') := EnrolStudent(db, nome, matricula, fotoBase64);
    FindIsFirst(db'.alunos, WithMatricula(matricula.value), |db.alunos|);
  }

  /** Enrolling twice with the same registration number: the second request
      is refused with 409 and adds nobody. */
  lemma SecondEnrolmentRefused(db: Db, nome: Option<string>, matricula: Option<string>, fotoBase64: Option<string>,
                               nome2: Option<string>, fotoBase642: Option<string>)
    requires EnrolStudent(db, nome, matricula, fotoBase64).0.Success?
    requires TruthyText(nome2) && TruthyText(fotoBase642)
    ensures var db1 := EnrolStudent(db, nome, matricula, fotoBase64).1;
      EnrolStudent(db1, nome2, matricula, fotoBase642) == (Failure(DuplicateMatricula), db1)
  {
    var db1 := EnrolStudent(db, nome, matricula, fotoBase64).1;
    assert db1.alunos[|db.alunos|].matricula == matricula.value;
  }

  // ---------------------------------------------------------------------
  // GET: the student list

  predicate NomeLe(a: Aluno, b: Aluno)
  {
    LexLe(a.nome, b.nome)
  }

  /** GET /api/admin/alunos: every student, ordered by name. */
  function ListAlunos(alunos: seq<Aluno>): (r: seq<Aluno>)
    ensures SortedBy(r, NomeLe)
    ensures multiset(r) == multiset(alunos)
  {
    TextKeyOrder((a: Aluno) => a.nome, NomeLe);
    SortBySorted(alunos, NomeLe);
    SortBy(alunos, NomeLe)
  }
}
