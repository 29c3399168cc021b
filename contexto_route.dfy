/** GET /api/emprestimos/contexto: what the loan desk shows about a student
    before a checkout — the student's subjects, which of them has an ATIVA
    reservation today, and a summary of the first such reservation. */
module ContextoRoute {
  import opened Wrappers
  import opened Seqs
  import opened DayWindow
  import opened JsValues
  import opened Tables
  import opened EmprestimosRoute

  datatype AlunoResumo = AlunoResumo(id: int, nome: string, matricula: string)

  /** One subject of the student, with today's reservation for it if any. */
  datatype MateriaHoje = MateriaHoje(
    id: int, nome: string, codigo: string, possuiReservaHoje: bool, reserva: Option<Reserva>)

  /** The summary shown for the reservation in context; absent names are shown
      as placeholders. */
  datatype ContextoReserva = ContextoReserva(materia: string, professor: string, turma: string, horario: string)

  datatype Contexto = Contexto(aluno: AlunoResumo, materias: seq<MateriaHoje>, contextoReserva: Option<ContextoReserva>)

  /** 400 when the query parameter is absent or empty, 404 for an unknown student. */
  datatype ContextoError = MissingAlunoId | AlunoNotFound

  /** An ATIVA reservation of subject `materiaId` whose class falls within the
      UTC day of `now` (the whole day, through 23:59:59.999). */
  function ReservedToday(materiaId: int, now: int): Reserva -> bool
  {
    (r: Reserva) => r.materiaId == materiaId && r.status == Ativa && InContextWindow(now, r.dataAula)
  }

  function HasReservaHoje(): MateriaHoje -> bool
  {
    (m: MateriaHoje) => m.possuiReservaHoje
  }

  /** The entry for subject `m`: its first reservation today, in table order. */
  function MateriaDoDia(rs: seq<Reserva>, now: int, m: Materia): (e: MateriaHoje)
    ensures e.id == m.id && e.nome == m.nome && e.codigo == m.codigo
    ensures e.possuiReservaHoje <==> e.reserva.Some?
    ensures e.reserva.None? <==> forall k :: 0 <= k < |rs| ==> !ReservedToday(m.id, now)(rs[k])
    ensures e.reserva.Some? ==> e.reserva.value in rs && ReservedToday(m.id, now)(e.reserva.value)
  {
    var r := Find(rs, ReservedToday(m.id, now));
    MateriaHoje(m.id, m.nome, m.codigo, r.Some?, r)
  }

  function MateriasDoDia(rs: seq<Reserva>, now: int, ms: seq<Materia>): (es: seq<MateriaHoje>)
    ensures |es| == |ms|
    ensures forall k :: 0 <= k < |ms| ==> es[k] == MateriaDoDia(rs, now, ms[k])
  {
    seq(|ms|, k requires 0 <= k < |ms| => MateriaDoDia(rs, now, ms[k]))
  }

  /** The reservation of the first subject that has one today. */
  function ReservaAtual(es: seq<MateriaHoje>): (r: Option<Reserva>)
    requires forall k :: 0 <= k < |es| ==> (es[k].possuiReservaHoje <==> es[k].reserva.Some?)
    ensures r.None? <==> forall k :: 0 <= k < |es| ==> !es[k].possuiReservaHoje
    ensures r.Some? ==> exists k :: 0 <= k < |es| && es[k].reserva == r
  {
    match Find(es, HasReservaHoje())
    case None => None
    case Some(e) => e.reserva
  }

  function Resumo(r: Reserva): (c: ContextoReserva)
    ensures c.materia == OrDefault(r.materiaNome, "Mat\U{E9}ria")
    ensures c.professor == OrDefault(r.professorNome, "\U{2014}")
    ensures c.turma == OrDefault(r.turmaNome, "\U{2014}")
    ensures c.horario == r.horario
  {
    ContextoReserva(OrDefault(r.materiaNome, "Mat\U{E9}ria"), OrDefault(r.professorNome, "\U{2014}"),
                    OrDefault(r.turmaNome, "\U{2014}"), r.horario)
  }

  /** GET /api/emprestimos/contexto?alunoId=… . `alunoId` is the parsed query
      parameter; `None` stands for an absent or empty one. */
  function GetContexto(db: Db, alunoId: Option<int>, now: int): (r: Result<Contexto, ContextoError>)
    ensures r == Failure(MissingAlunoId) <==> alunoId.None?
    ensures r == Failure(AlunoNotFound) <==> alunoId.Some? && !AlunoExists(db.alunos, alunoId.value)
    ensures r.Success? ==> r.value.aluno.id == alunoId.value
  {
    if alunoId.None? then Failure(MissingAlunoId)
    else match Find(db.alunos, WithAlunoId(alunoId.value))
      case None => Failure(AlunoNotFound)
      case Some(a) =>
        var es := MateriasDoDia(db.reservas, now, a.materias);
        var atual := ReservaAtual(es);
        Success(Contexto(AlunoResumo(a.id, a.nome, a.matricula), es,
                         if atual.Some? then Some(Resumo(atual.value)) else None))
  }

  /** For a known student the context lists exactly that student's subjects,
      in order, each flagged with whether it has an ATIVA reservation today. */
  lemma ContextoListsSubjects(db: Db, i: int, now: int)
    requires UniqueAlunos(db.alunos)
    requires 0 <= i < |db.alunos|
    ensures var r := GetContexto(db, Some(db.alunos[i].id), now);
      && r.Success?
      && r.value.aluno == AlunoResumo(db.alunos[i].id, db.alunos[i].nome, db.alunos[i].matricula)
      && |r.value.materias| == |db.alunos[i].materias|
      && forall k :: 0 <= k < |db.alunos[i].materias| ==>
           && r.value.materias[k].id == db.alunos[i].materias[k].id
           && r.value.materias[k].nome == db.alunos[i].materias[k].nome
           && (r.value.materias[k].possuiReservaHoje <==>
                 exists j :: 0 <= j < |db.reservas| && db.reservas[j].materiaId == db.alunos[i].materias[k].id &&
                   db.reservas[j].status == Ativa && DayStart(db.reservas[j].dataAula) == DayStart(now))
  {
    var a := db.alunos[i];
    forall j | 0 <= j < i ensures !WithAlunoId(a.id)(db.alunos[j]) {
    }
    FindIsFirst(db.alunos, WithAlunoId(a.id), i);
    var es := MateriasDoDia(db.reservas, now, a.materias);
    forall k | 0 <= k < |a.materias|
      ensures es[k].possuiReservaHoje <==>
        exists j :: 0 <= j < |db.reservas| && db.reservas[j].materiaId == a.materias[k].id &&
          db.reservas[j].status == Ativa && DayStart(db.reservas[j].dataAula) == DayStart(now)
    {
      forall j | 0 <= j < |db.reservas|
        ensures ReservedToday(a.materias[k].id, now)(db.reservas[j]) <==>
          db.reservas[j].materiaId == a.materias[k].id && db.reservas[j].status == Ativa &&
          DayStart(db.reservas[j].dataAula) == DayStart(now)
      {
        ContextWindowIsUtcDay(now, db.reservas[j].dataAula);
      }
    }
  }

  /** The reservation in context is the one of the first listed subject that
      has a reservation today, and there is one exactly when some subject has. */
  lemma ContextoReservaIsFirstSubjectWithOne(db: Db, alunoId: Option<int>, now: int)
    requires GetContexto(db, alunoId, now).Success?
    ensures var c := GetContexto(db, alunoId, now).value;
      && (c.contextoReserva.Some? <==> exists k :: 0 <= k < |c.materias| && c.materias[k].possuiReservaHoje)
      && (c.contextoReserva.Some? ==>
            exists k :: 0 <= k < |c.materias| && c.materias[k].reserva.Some? &&
              c.contextoReserva.value == Resumo(c.materias[k].reserva.value) &&
              forall j :: 0 <= j < k ==> !c.materias[j].possuiReservaHoje)
  {
    var c := GetContexto(db, alunoId, now).value;
    var a := Find(db.alunos, WithAlunoId(alunoId.value)).value;
    assert c.materias == MateriasDoDia(db.reservas, now, a.materias);
    var k := FirstIndex(c.materias, HasReservaHoje());
    if k >= 0 {
      FindIsFirst(c.materias, HasReservaHoje(), k);
      assert c.materias[k].possuiReservaHoje;
    }
  }

  /** A reservation shown in context whose class is not in the last second of
      the day also qualifies the student for checkout: it is ATIVA, today, and
      of a subject the student is enrolled in. */
  lemma ContextoReservaQualifiesForCheckout(db: Db, alunoId: Option<int>, now: int)
    requires GetContexto(db, alunoId, now).Success?
    requires var r := ReservaAtual(GetContexto(db, alunoId, now).value.materias);
      r.Some? && r.value.dataAula <= DayStart(now) + CheckoutDayEnd
    ensures var r := ReservaAtual(GetContexto(db, alunoId, now).value.materias);
      && r.value in db.reservas
      && QualifiesToday(db.alunos, alunoId.value, now, r.value)
  {
    var c := GetContexto(db, alunoId, now).value;
    var a := Find(db.alunos, WithAlunoId(alunoId.value)).value;
    var i :| 0 <= i < |db.alunos| && db.alunos[i] == a;
    var k := FirstIndex(c.materias, HasReservaHoje());
    assert c.materias[k] == MateriaDoDia(db.reservas, now, a.materias[k]);
    var r := c.materias[k].reserva.value;
    assert db.alunos[i].id == alunoId.value && db.alunos[i].materias[k].id == r.materiaId;
    assert Enrolled(db.alunos, alunoId.value, r.materiaId);
  }
}
