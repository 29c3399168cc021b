# Notebook loan ledger — a Dafny model

This project models the loan ledger of projetoExpressPC, a school system for lending
notebooks to students against a teacher's class reservation. The model covers:

- the server routes that read and write the ledger:
  - checkout by asset tag against today's reservation (`POST /api/emprestimos`);
  - the loan list (`GET /api/emprestimos`);
  - the return (`POST /api/emprestimos/devolver`);
  - the older checkout (`POST /api/Emprestimos`);
  - the desk's context lookup (`GET /api/emprestimos/contexto`);
  - the notebook inventory (`/api/notebooks`);
  - student enrolment and the student list (`/api/admin/alunos`);
  - account registration (`POST /api/register`);
- the browser-side store `src/lib/store.ts`.

How the model is built:

- The database is a value `Tables.Db`, holding one `seq` per table plus the next key of each auto-increment table.
- Every route is a function from the old tables and the request to the answer and the new tables. The answer is a `Result` whose error cases are the route's rejections.
- `Ledger.Database` is the same database as an object whose fields the routes update in place. It has one method per writing route. Each method runs the route's checks step by step and is proved to give exactly that function's answer and new state.
- `RegisterRoute.UserTable` does the same for the user table. Its duplicate-email check is a loop.
- `Store.LocalStore` holds the client's three lists as fields. Its `save…`, `delete…` and `updateNotebookStatus` methods change them in place, and its finders are functions over them.

The ledger's rules are the predicates in `Tables`:

- unique keys and unique asset tags;
- foreign keys from every loan to its notebook, student and reservation;
- I1: at most one ATIVO loan per notebook;
- I2: a reservation's ATIVO loans never exceed its `qtdNotebooks`;
- an ATIVO loan's notebook is EM_USO.

`Tables.Consistent` is all of them. `Tables.ConsistentButQuota` is all of them except I2. The older checkout can break I2, so every writing route is also proved to keep `ConsistentButQuota` from any ledger that satisfies it.

Conventions of the model:

- Request fields are JavaScript values tested for truthiness. An id is `Option<int>`, where absent or `0` is falsy. A text field is `Option<string>`, where absent or `""` is falsy.
- Instants are epoch milliseconds. "Now" is a parameter.
- String order is code-point lexicographic order.

What the code does, as opposed to what one might expect of it:

- The main checkout does not refuse a student who already holds an ATIVO loan (`LoanLifecycle.CheckoutAllowsSecondLoanPerStudent`). The return then closes the student's older loan first, and the notebook just taken stays EM_USO (`LoanLifecycle.SampleReturnClosesOlderLoan`, `LoanLifecycle.PriorReturnLeavesNotebookOut`).
- The older checkout does refuse such a student (`LegacyEmprestimosRoute.LegacyRefusesSecondLoan`, `LegacyEmprestimosRoute.LegacyAfterNotebookCheck`). Without an `alunoId` its lookup of ATIVO loans has no student filter, so any ATIVO loan in the table refuses the request (`LegacyEmprestimosRoute.LegacyAbsentIds`). It checks neither the reservation's day nor its quota, so it can break I2 (`LegacyEmprestimosRoute.LegacyIgnoresQuota`).
- The checkout's reservation window ends at 23:59:59.000 UTC. The context route's window ends at 23:59:59.999 UTC. A class in the day's last second is therefore shown in context but cannot be borrowed against (`DayWindow.WindowsDifferInLastSecond`).
- None of the routes modelled here matches a face: checkout and return identify the student by id alone.

## Model

| member | source | states |
|---|---|---|
| EmprestimosRoute.QualifiesTodayOnUtcDay | src/app/api/emprestimos/route.ts:118-143 | a reservation passes the checkout's filter iff it is ATIVA, its class is on the UTC day of `now` no later than 23:59:59.000, and its subject is one the student is enrolled in |
| EmprestimosRoute.MostRecent | src/app/api/emprestimos/route.ts:118-143 | the reservation found satisfies the filter, none is found iff none satisfies it, and it has the latest `createdAt` among those that do |
| EmprestimosRoute.Checkout | src/app/api/emprestimos/route.ts:71-200 | a refusal changes nothing; missing fields iff `alunoId` or `patrimonio` is falsy; a success inserts an ATIVO loan with the next key at `now` and sets its notebook EM_USO in the same step |
| EmprestimosRoute.CheckoutUnknownPatrimonio | src/app/api/emprestimos/route.ts:86-95 | an asset tag naming no notebook gets 404 and the tables stay as they were |
| EmprestimosRoute.CheckoutRefusesBusyNotebook | src/app/api/emprestimos/route.ts:98-110 | a notebook that is not DISPONIVEL, or that has an ATIVO loan, is refused and nothing changes |
| EmprestimosRoute.CheckoutSuccess | src/app/api/emprestimos/route.ts:113-169 | a successful checkout had both fields, a DISPONIVEL notebook with that tag and no ATIVO loan, and a reservation that is ATIVA, has its class today, is of a subject the student is enrolled in, is below its quota and is the most recent such reservation |
| EmprestimosRoute.CheckoutAfterNotebookChecks | src/app/api/emprestimos/route.ts:117-169 | once the notebook checks pass: "no reservation today" iff no reservation qualifies; for the most recent qualifying one, "quota reached" iff its ATIVO loans are at `qtdNotebooks`, and below that the checkout succeeds with a loan on that notebook against that reservation |
| EmprestimosRoute.CheckoutFlipsOnlyItsNotebook | src/app/api/emprestimos/route.ts:181-185 | after a checkout the notebook with that tag, which was DISPONIVEL, is EM_USO, and every other notebook is unchanged |
| EmprestimosRoute.CheckoutPreservesConsistency | src/app/api/emprestimos/route.ts:97-188 | checkout keeps keys, foreign keys, I1 (one ATIVO loan per notebook), I2 (the quota) and "ATIVO means EM_USO" |
| EmprestimosRoute.CheckoutKeepsButQuota | src/app/api/emprestimos/route.ts:97-188 | from a ledger that keeps every rule but the quota, checkout keeps every rule but the quota |
| EmprestimosRoute.ListLoans | src/app/api/emprestimos/route.ts:7-10 | the list holds every loan once (a permutation) and is ordered by `dataRetirada` descending |
| DayWindow.DayStart | src/app/api/emprestimos/route.ts:113-114 | the day start is a multiple of 86 400 000 ms and at most one day before `now` |
| DayWindow.ContextWindowIsUtcDay | src/app/api/emprestimos/contexto/route.ts:17-20 | an instant is in the context window iff it lies on the same UTC calendar day as `now` |
| DayWindow.CheckoutWindowIsUtcDayToLastSecond | src/app/api/emprestimos/route.ts:113-124 | an instant is in the checkout window iff it is on the same UTC day and no later than 23:59:59.000 |
| DayWindow.WindowsDifferInLastSecond | src/app/api/emprestimos/route.ts:115 | the checkout window lies inside the context window, and they differ exactly in the instants after 23:59:59.000 |
| DevolverRoute.Devolver | src/app/api/emprestimos/devolver/route.ts:7-60 | a refusal changes nothing; 400 iff `alunoId` is falsy; 404 iff the student has no ATIVO loan |
| DevolverRoute.DevolverSuccess | src/app/api/emprestimos/devolver/route.ts:18-60 | a successful return closes the student's first ATIVO loan (DEVOLVIDO at `now`), sets that loan's notebook DISPONIVEL, changes no other loan or notebook, and reports that loan's id and that notebook's asset tag |
| DevolverRoute.DevolverClosesFirstActive | src/app/api/emprestimos/devolver/route.ts:18-52 | given the first ATIVO loan of a student, the return succeeds, closes exactly that loan and names its notebook |
| DevolverRoute.DevolverPreservesConsistency | src/app/api/emprestimos/devolver/route.ts:36-52 | a return keeps all the ledger's rules |
| DevolverRoute.DevolverKeepsButQuota | src/app/api/emprestimos/devolver/route.ts:36-52 | from a ledger that keeps every rule but the quota, a return keeps every rule but the quota |
| DevolverRoute.DevolverClosesExactlyOne | src/app/api/emprestimos/devolver/route.ts:38-44 | a successful return leaves the student with exactly one ATIVO loan fewer |
| DevolverRoute.DevolverRefusalRepeats | src/app/api/emprestimos/devolver/route.ts:29-34 | a 404 for lack of an ATIVO loan leaves the tables alone, so the same request is refused again |
| LegacyEmprestimosRoute.LegacyCheckout | src/app/api/Emprestimos/route.tsx:4-63 | a refusal changes nothing; an absent `notebookId` is a 500; a success had all three ids and inserts an ATIVO loan with the given notebook, student and reservation and sets the notebook EM_USO |
| LegacyEmprestimosRoute.LegacyRefusesUnavailable | src/app/api/Emprestimos/route.tsx:8-17 | "unavailable" iff no notebook with that id is DISPONIVEL |
| LegacyEmprestimosRoute.LegacyRefusesSecondLoan | src/app/api/Emprestimos/route.tsx:19-31 | once the notebook is available, a student holding an ATIVO loan is refused and nothing changes |
| LegacyEmprestimosRoute.LegacyAfterNotebookCheck | src/app/api/Emprestimos/route.tsx:19-63 | once the notebook is available: "student already has a loan" iff some ATIVO loan matches the student filter; success iff all ids are given, the student holds no ATIVO loan and the student and reservation exist; anything else is the 500 |
| LegacyEmprestimosRoute.LegacyAbsentIds | src/app/api/Emprestimos/route.tsx:8-31 | an absent `notebookId` is a 500; with an available notebook and no `alunoId`, any ATIVO loan refuses the request and otherwise it is a 500 |
| LegacyEmprestimosRoute.LegacyKeepsOneActivePerAluno | src/app/api/Emprestimos/route.tsx:19-45 | the older checkout keeps "at most one ATIVO loan per student" |
| LegacyEmprestimosRoute.ActiveMatching | src/app/api/Emprestimos/route.tsx:19-24 | with an `alunoId` the filter is the student's ATIVO loans; without one it is every ATIVO loan |
| LegacyEmprestimosRoute.LegacyKeepsAllButQuota | src/app/api/Emprestimos/route.tsx:8-52 | from any ledger that keeps every rule but the quota (one an earlier call already took over a quota included), the older checkout keeps every rule but the quota |
| LegacyEmprestimosRoute.LegacyIgnoresQuota | src/app/api/Emprestimos/route.tsx:34-45 | a consistent ledger whose reservation is at its quota still accepts a loan against it, after which the quota is exceeded |
| LoanLifecycle.OpenThenReturn | src/app/api/emprestimos/devolver/route.ts:18-60 | the loan just opened for a student with no other ATIVO loan is the one the return closes, and the notebook's asset tag is reported |
| LoanLifecycle.CheckoutThenReturn | src/app/api/emprestimos/devolver/route.ts:18-52 | checkout followed by return: for a student with no earlier ATIVO loan the return closes the loan the checkout made, every notebook is back as it was, and the loan table keeps the closed loan; otherwise it closes the student's first earlier ATIVO loan and the new loan stays ATIVO |
| LoanLifecycle.OpenThenReturnPrior | src/app/api/emprestimos/devolver/route.ts:18-52 | after a loan is opened for a student who already holds one, the return closes the student's first earlier ATIVO loan and the new loan stays in the table as it was |
| LoanLifecycle.ReturnClosesPriorLoan | src/app/api/emprestimos/devolver/route.ts:18-52 | checkout by a student whose first ATIVO loan is `i`, then return: the return reports and closes loan `i`, and the new loan is still ATIVO |
| LoanLifecycle.CheckoutRefusesTakenNotebook | src/app/api/emprestimos/route.ts:97-110 | an asset tag whose notebook has an ATIVO loan is refused as in use, whatever the notebook's status |
| LoanLifecycle.PriorReturnLeavesNotebookOut | src/app/api/emprestimos/route.ts:97-110 | after that return, any checkout of the notebook just taken is refused as in use |
| LoanLifecycle.CheckoutIgnoresClosedLoan | src/app/api/emprestimos/route.ts:98-159 | a DEVOLVIDO loan added to the table changes no checkout's answer |
| LoanLifecycle.RoundTripRestoresAvailability | src/app/api/emprestimos/route.ts:71-200 | after a checkout and its return by a student with no earlier ATIVO loan, any checkout request succeeds iff it would have succeeded before, and a refused one gets the same refusal; for a student with one, the notebook just taken is refused as in use |
| LoanLifecycle.CheckoutAllowsSecondLoanPerStudent | src/app/api/emprestimos/route.ts:97-159 | from a consistent ledger a student can check out two notebooks in a row, so the route does not keep one ATIVO loan per student |
| LoanLifecycle.SampleReturnClosesOlderLoan | src/app/api/emprestimos/devolver/route.ts:18-52 | in that example, the return closes the loan on the first notebook and makes it DISPONIVEL, while the second loan stays ATIVO and its notebook EM_USO |
| ContextoRoute.MateriaDoDia | src/app/api/emprestimos/contexto/route.ts:54-65 | a subject's entry keeps its id, name and code, flags a reservation iff it has one, and has a reservation iff one of the subject's reservations is ATIVA today |
| ContextoRoute.MateriasDoDia | src/app/api/emprestimos/contexto/route.ts:54-65 | one entry per subject of the student, in the same order, each that subject's entry |
| ContextoRoute.ReservaAtual | src/app/api/emprestimos/contexto/route.ts:68 | there is a current reservation iff some subject is flagged, and it is one subject's reservation |
| ContextoRoute.Resumo | src/app/api/emprestimos/contexto/route.ts:79-84 | the summary shows the subject, teacher and class names, with "Matéria" and "—" standing in for absent ones |
| ContextoRoute.GetContexto | src/app/api/emprestimos/contexto/route.ts:4-85 | 400 iff the parameter is missing, 404 iff no student has that id, and otherwise the context of that student |
| ContextoRoute.ContextoListsSubjects | src/app/api/emprestimos/contexto/route.ts:22-65 | the context lists the student's subjects in order, each flagged iff an ATIVA reservation of it falls on today's UTC date |
| ContextoRoute.ContextoReservaIsFirstSubjectWithOne | src/app/api/emprestimos/contexto/route.ts:68-84 | the summary in context is that of the first listed subject with a reservation today, and it is present iff some subject has one |
| ContextoRoute.ContextoReservaQualifiesForCheckout | src/app/api/emprestimos/contexto/route.ts:22-68 | a reservation shown in context and not in the day's last second is one the checkout accepts for that student |
| NotebooksRoute.ParseStatus | src/app/api/notebooks/route.ts:13 | a status parameter parses to a status iff it is that status's stored name |
| NotebooksRoute.ListNotebooks | src/app/api/notebooks/route.ts:5-25 | fails iff a non-empty parameter names no status; otherwise gives the notebooks ordered by asset tag and is a permutation of all of them, or of those with that status |
| NotebooksRoute.ListByStatusMembers | src/app/api/notebooks/route.ts:10-14 | listing by a status gives exactly the notebooks with that status |
| NotebooksRoute.CreateNotebook | src/app/api/notebooks/route.ts:28-53 | 400 for a missing field iff a field is falsy; 400 for a taken asset tag iff some notebook has it; otherwise appends a DISPONIVEL notebook with the next key |
| NotebooksRoute.CreateNotebookPreservesConsistency | src/app/api/notebooks/route.ts:37-49 | registering a notebook keeps all the ledger's rules, and keeps every rule but the quota from a ledger that breaks the quota |
| NotebooksRoute.CreatedNotebookIsFound | src/app/api/notebooks/route.ts:37-45 | a later lookup by the asset tag finds the notebook just registered |
| NotebooksRoute.DeleteNotebook | src/app/api/notebooks/route.ts:56-66 | fails iff no notebook has the id or some loan refers to it; otherwise removes the notebooks with that id and nothing else |
| NotebooksRoute.DeleteRemovesOnlyThatNotebook | src/app/api/notebooks/route.ts:59-61 | after a delete, a notebook is listed iff it was listed before and has another id |
| NotebooksRoute.DeleteNotebookPreservesConsistency | src/app/api/notebooks/route.ts:56-66 | deleting a notebook keeps all the ledger's rules, and keeps every rule but the quota from a ledger that breaks the quota |
| AlunosRoute.WordRun | src/app/api/admin/alunos/route.ts:48 | the run is the longest prefix of word characters (`\w`) |
| AlunosRoute.StripDataUrlPrefix | src/app/api/admin/alunos/route.ts:47-50 | the stored photo text is the input, or the input less a prefix of the form `data:image/<word>;base64,` |
| AlunosRoute.StripRemovesPrefix | src/app/api/admin/alunos/route.ts:48 | a photo sent as a data URL loses exactly its prefix |
| AlunosRoute.StripUnchangedWithoutPrefix | src/app/api/admin/alunos/route.ts:48 | photo text with no data-URL prefix is kept as it came |
| AlunosRoute.EnrolStudent | src/app/api/admin/alunos/route.ts:34-79 | 400 iff a field is falsy; 409 iff the registration number is taken; otherwise appends the student with the stripped photo, an empty embedding and no subjects |
| AlunosRoute.EnrolPreservesConsistency | src/app/api/admin/alunos/route.ts:52-59 | enrolment keeps all the ledger's rules, and keeps every rule but the quota from a ledger that breaks the quota |
| AlunosRoute.EnrolledStudentIsFound | src/app/api/admin/alunos/route.ts:52-61 | a lookup by registration number finds the student just enrolled |
| AlunosRoute.SecondEnrolmentRefused | src/app/api/admin/alunos/route.ts:66-72 | enrolling the same registration number again is answered 409 and adds nobody |
| AlunosRoute.ListAlunos | src/app/api/admin/alunos/route.ts:8-29 | the list holds every student once and is ordered by name |
| RegisterRoute.EmailRegexIffShape | src/app/api/register/route.ts:30-33 | the email pattern accepts an address iff it has no whitespace, exactly one `@` with text before it, and a `.` after it with text on both sides |
| RegisterRoute.ValidateRegistration | src/app/api/register/route.ts:23-37 | each 400 answer, in check order, iff its condition holds and the earlier checks passed |
| RegisterRoute.ValidationAccepts | src/app/api/register/route.ts:23-37 | a request passes the checks iff the email is well formed and the two passwords are equal and at least eight characters long |
| RegisterRoute.RegisterUser | src/app/api/register/route.ts:18-60 | a refusal adds nobody; "user already exist" iff the checks pass and the email is taken; a success appends a user with the next key, the email and the hash |
| RegisterRoute.RegisterKeepsUnique | src/app/api/register/route.ts:44-57 | registration keeps emails unique and keys below the next key |
| RegisterRoute.SecondRegistrationRefused | src/app/api/register/route.ts:54-57 | registering the same address twice: the second request is refused and adds nobody |
| RegisterRoute.UserTable.Register | src/app/api/register/route.ts:18-60 | the method's answer and new table are those of `RegisterUser`, and emails stay unique |
| Ledger.Database.Checkout | src/app/api/emprestimos/route.ts:71-200 | the method's answer and new tables are those of `EmprestimosRoute.Checkout`, and a consistent ledger stays consistent; from a ledger that keeps every rule but the quota, so does the new one |
| Ledger.Database.Devolver | src/app/api/emprestimos/devolver/route.ts:7-60 | the method's answer and new tables are those of `DevolverRoute.Devolver`, and a consistent ledger stays consistent; from a ledger that keeps every rule but the quota, so does the new one |
| Ledger.Database.LegacyCheckout | src/app/api/Emprestimos/route.tsx:4-54 | the method's answer and new tables are those of `LegacyCheckout`; from any ledger that keeps every rule but the quota, so does the new one, and "one ATIVO loan per student" is kept |
| Ledger.Database.CreateNotebook | src/app/api/notebooks/route.ts:28-53 | the method's answer and new tables are those of `NotebooksRoute.CreateNotebook`, and consistency is kept; from a ledger that keeps every rule but the quota, so does the new one |
| Ledger.Database.DeleteNotebook | src/app/api/notebooks/route.ts:56-66 | the method's answer and new tables are those of `NotebooksRoute.DeleteNotebook`, and consistency is kept; from a ledger that keeps every rule but the quota, so does the new one |
| Ledger.Database.EnrolStudent | src/app/api/admin/alunos/route.ts:34-79 | the method's answer and new tables are those of `AlunosRoute.EnrolStudent`, and consistency is kept; from a ledger that keeps every rule but the quota, so does the new one |
| Tables.OpenLoan | src/app/api/emprestimos/route.ts:162-188 | the checkout transaction: the loan is appended to the loan table, its notebook is set EM_USO, and reservations and students are unchanged |
| Tables.CloseLoan | src/app/api/emprestimos/devolver/route.ts:36-52 | the return transaction: only loan `i` changes, to DEVOLVIDO at `now`; its notebook is set DISPONIVEL; reservations, students and the key counter are unchanged |
| Tables.SetNotebookStatus | src/app/api/emprestimos/route.ts:182-185 | every notebook with that id gets the status; ids, tags and models and every other notebook are unchanged |
| Tables.SetNotebookStatusRestores | src/app/api/emprestimos/devolver/route.ts:46-49 | setting a notebook's status to something else and then back restores the table |
| Tables.OpenLoanCount | src/app/api/emprestimos/route.ts:134-154 | opening an ATIVO loan adds one to its own reservation's ATIVO count and to no other |
| Tables.CloseLoanCount | src/app/api/emprestimos/devolver/route.ts:38-44 | closing an ATIVO loan takes one from its own reservation's ATIVO count and from no other |
| Tables.OpenLoanKeepsConsistency | src/app/api/emprestimos/route.ts:162-188 | opening a loan on a notebook with no ATIVO loan, against a reservation below its quota, keeps every rule |
| Store.Upsert | src/lib/store.ts:22-31 | the saved record replaces the first one with its id, in place, or is appended when none has it; no other record changes |
| Store.UpsertThenFind | src/lib/store.ts:24-28 | after a save, a lookup by that id finds the saved record |
| Store.UpsertKeepsUniqueKeys | src/lib/store.ts:42-51 | saving keeps ids unique |
| Store.UpsertIdempotent | src/lib/store.ts:71-80 | saving the same record twice is saving it once |
| Store.DeleteByKey | src/lib/store.ts:33-36 | no record with the id is left; every record with another id is kept with its multiplicity, and nothing new appears |
| Store.DeleteByKeyConcat | src/lib/store.ts:33-36 | deleting from a concatenation deletes from each part, so the survivors keep their stored order |
| Store.DeleteByKeySingle | src/lib/store.ts:33-36 | a single record survives a delete iff its id differs |
| Store.DeleteAbsentKey | src/lib/store.ts:53-56 | deleting an id nobody has changes nothing |
| Store.DeleteUndoesUpsert | src/lib/store.ts:53-56 | deleting the id of a record just saved gives what deleting it before the save gave |
| Store.SetFirstStatus | src/lib/store.ts:58-65 | the first notebook with the id gets the status and nothing else changes, and nothing at all when none has the id |
| Store.SetFirstStatusRestores | src/lib/store.ts:58-65 | changing a notebook's status and changing it back restores the list |
| Store.LocalStore.SaveStudent | src/lib/store.ts:22-31 | the student list becomes the upsert of the old one; the other lists are unchanged |
| Store.LocalStore.DeleteStudent | src/lib/store.ts:33-36 | the student list loses the records with that id; the other lists are unchanged |
| Store.LocalStore.SaveNotebook | src/lib/store.ts:42-51 | the notebook list becomes the upsert of the old one; the other lists are unchanged |
| Store.LocalStore.DeleteNotebook | src/lib/store.ts:53-56 | the notebook list loses the records with that id; the other lists are unchanged |
| Store.LocalStore.UpdateNotebookStatus | src/lib/store.ts:58-65 | the first notebook with the id gets the status in place; the other lists are unchanged |
| Store.LocalStore.SaveLoan | src/lib/store.ts:71-80 | the loan list becomes the upsert of the old one; the other lists are unchanged |
| Store.LocalStore.ActiveLoans | src/lib/store.ts:82-84 | the result holds exactly the stored loans whose status is `ativo`, each as many times as it is stored |
| Store.LocalStore.ActiveLoansInStoredOrder | src/lib/store.ts:82-84 | two listed loans come from two stored positions in the same order |
| Store.LocalStore.FindActiveLoanByPatrimonio | src/lib/store.ts:86-88 | none iff no `ativo` loan has the asset tag; otherwise the first one that does |
| Store.LocalStore.FindNotebookByPatrimonio | src/lib/store.ts:90-92 | none iff no notebook has the asset tag; otherwise the first one that does |
| Store.LocalStore.FindStudentByMatricula | src/lib/store.ts:94-96 | none iff no student has the registration number; otherwise the first one that does |

## Left out

- Face recognition: the embedding, the nearest-neighbour matcher, the camera bridge and the face service are not part of this model. Enrolment stores an empty embedding as the code does.
- Concurrency: each request runs alone on the tables. A transaction is one step of the model. Two requests racing past the same check are not modelled.
- `new Date()`: the current instant is the parameter `now`, in epoch milliseconds.
- bcrypt: the password hash is a parameter of the registration.
- base64 decoding of the photo: the stored photo is the text left after the data-URL prefix is removed.
- The browser's `localStorage`, and JSON parsing and printing: the store's fields are the lists that would be stored.
- `Number(…)` on request ids: the model takes the number, or `None` for an absent or empty parameter. Text that parses to `NaN` is not modelled.
- Non-string JSON bodies are not modelled, and neither are the generic 400 for a malformed body and the generic 500 of every `catch`. The older checkout is the exception: its 500 covers an absent id and a missing student or reservation.
- The older checkout's `reservaId` is taken to be a required column, so an absent one is a 500.
- DevolverRoute.Devolver: the return's `findFirst` has no `orderBy`; the model closes the first ATIVO loan in table order.
- `cpf`, `ativo`, `createdAt` of a student and the `include`/`select` projections of the responses are not modelled. A response is the record itself, or the fields the route names.
- Prisma errors other than the unique-key violation (P2002) and the foreign-key failures of an insert or delete are not modelled.
- The database's collation is not modelled: text is ordered by code point.
- Lengths are counted in characters, not UTF-16 code units.
- `\s` in the email pattern is the explicit set in `JsValues.IsJsWhitespace`. It covers ASCII whitespace, NBSP, the BOM, the Unicode space separators and the line and paragraph separators.
- The database schema is not part of this model. Loans are assumed to default to ATIVO with `dataRetirada` equal to `now`, and to carry restricting foreign keys to the notebook, student and reservation.
- Ties on `createdAt` in the checkout's reservation lookup go to the first row in table order, and the context route's reservation per subject is the first in table order. The database leaves both unspecified.
- Creating reservations, subjects and enrolments in subjects belongs to other routes. The constructor of `Ledger.Database` takes the reservations as given.
- The older checkout writes the loan and the notebook status in two separate steps. A failure between them is not modelled.
- EmprestimosRoute.Checkout: the function's own contract gives the effect of a refusal, the missing-fields case and the shape of a success. When the notebook, reservation and quota checks decide the answer is stated by `CheckoutUnknownPatrimonio`, `CheckoutRefusesBusyNotebook` and `CheckoutAfterNotebookChecks`.
- EmprestimosRoute.CheckoutSuccess: states one direction (a success passed every check). The converse, that passing every check succeeds, is `CheckoutAfterNotebookChecks`.
- LegacyEmprestimosRoute.LegacyCheckout: the function's own contract gives the effect of a refusal, the 500 for an absent `notebookId` and the shape of a success. When it succeeds, whatever the reservation's status, date or ATIVO count, is `LegacyAfterNotebookCheck`, with `LegacyRefusesUnavailable` and `LegacyAbsentIds`.
- DevolverRoute.Devolver: requires that every loan's notebook and student exist, which the foreign keys guarantee in the database.
- ContextoRoute.ContextoListsSubjects: requires unique student ids, which the primary key guarantees.
- The list endpoints that only read one table without ordering or filtering, login, profile, e-mail and the UI are not part of this model.
