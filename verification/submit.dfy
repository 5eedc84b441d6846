/**
 * The server action `procesarFormulario`: the deadline gate, reading the
 * posted form, the schema, the attachment policy, then the two sends and
 * the outcome record. Time, the environment, the date stamp, the email
 * predicate and the result of every send are parameters; the trace of
 * steps records what was attempted, in order.
 */
module Submit {
  import opened Wrappers
  import opened Text
  import opened Attachments
  import opened Validation
  import opened Email
  import Deadline

  // ----- The posted form

  datatype Entry = TextEntry(text: string) | FileEntry(file: File)

  datatype Part = Part(key: string, entry: Entry)

  /** `formData.get(key)`: the first entry posted under `key`, if any. */
  function Get(form: seq<Part>, key: string): (e: Option<Entry>)
    ensures e.None? <==> forall k :: 0 <= k < |form| ==> form[k].key != key
    decreases |form|
  {
    if form == [] then None
    else if form[0].key == key then Some(form[0].entry)
    else
      assert forall j :: 1 <= j < |form| ==> form[j] == form[1..][j - 1];
      Get(form[1..], key)
  }

  /** What `get` returns is the entry at the first position holding the key. */
  lemma {:induction false} GetFirst(form: seq<Part>, key: string)
    requires Get(form, key).Some?
    ensures exists k :: 0 <= k < |form| && form[k].key == key && form[k].entry == Get(form, key).value &&
                        forall j :: 0 <= j < k ==> form[j].key != key
    decreases |form|
  {
    if form[0].key != key {
      GetFirst(form[1..], key);
      var k :| 0 <= k < |form[1..]| && form[1..][k].key == key && form[1..][k].entry == Get(form, key).value &&
               forall j :: 0 <= j < k ==> form[1..][j].key != key;
      assert form[k + 1] == form[1..][k];
      assert forall j :: 1 <= j < k + 1 ==> form[j] == form[1..][j - 1];
    }
  }

  /** Adding an entry under another key, or after the first one, does not change what `get` returns. */
  lemma GetAppend(form: seq<Part>, p: Part, key: string)
    requires p.key != key || Get(form, key).Some?
    ensures Get(form + [p], key) == Get(form, key)
  {
    var e, e' := Get(form, key), Get(form + [p], key);
    if e.Some? {
      GetFirst(form, key);
      var k :| 0 <= k < |form| && form[k].key == key && form[k].entry == e.value &&
               forall j :: 0 <= j < k ==> form[j].key != key;
      assert (form + [p])[k].key == key;
      GetFirst(form + [p], key);
      var k' :| 0 <= k' < |form| + 1 && (form + [p])[k'].key == key && (form + [p])[k'].entry == e'.value &&
                forall j :: 0 <= j < k' ==> (form + [p])[j].key != key;
      assert (form + [p])[k] == form[k];
      assert k' == k;
    } else {
      assert forall j :: 0 <= j < |form| ==> (form + [p])[j] == form[j];
    }
  }

  lemma GetAppendNew(form: seq<Part>, p: Part)
    requires Get(form, p.key).None?
    ensures Get(form + [p], p.key) == Some(p.entry)
  {
    var e := Get(form + [p], p.key);
    assert (form + [p])[|form|].key == p.key;
    GetFirst(form + [p], p.key);
    var k :| 0 <= k < |form| + 1 && (form + [p])[k].key == p.key && (form + [p])[k].entry == e.value &&
             forall j :: 0 <= j < k ==> (form + [p])[j].key != p.key;
  }

  const FilesKey := "archivos"

  /** The entry is a file posted under `archivos` with a positive size. */
  predicate IsUpload(p: Part) {
    p.key == FilesKey && p.entry.FileEntry? && p.entry.file.size > 0
  }

  /**
   * Step 2 of `procesarFormulario`: the files posted under `archivos` whose
   * size is positive, in their posting order.
   */
  function ExtractFiles(form: seq<Part>): (files: seq<File>)
    ensures |files| <= |form|
    ensures forall i :: 0 <= i < |files| ==> files[i].size > 0
    decreases |form|
  {
    if form == [] then []
    else (if IsUpload(form[0]) then [form[0].entry.file] else []) + ExtractFiles(form[1..])
  }

  /** Extraction is a filter: it distributes over concatenation... */
  lemma {:induction false} ExtractFilesAppend(a: seq<Part>, b: seq<Part>)
    ensures ExtractFiles(a + b) == ExtractFiles(a) + ExtractFiles(b)
    decreases |a|
  {
    if a == [] {
      assert a + b == b;
    } else {
      assert (a + b)[0] == a[0];
      assert (a + b)[1..] == a[1..] + b;
      ExtractFilesAppend(a[1..], b);
    }
  }

  /** ...and keeps a single entry exactly when it is a non-empty upload. */
  lemma ExtractFilesSingle(p: Part)
    ensures ExtractFiles([p]) == (if IsUpload(p) then [p.entry.file] else [])
  {
    assert [p][1..] == [];
  }

  /** How a read entry reaches the schema: text as a string, a file as something else, nothing as `absent`. */
  function AsValue(e: Option<Entry>, absent: Value): Value {
    match e
    case None => absent
    case Some(TextEntry(t)) => Str(t)
    case Some(FileEntry(_)) => Other
  }

  /** Step 3 with a chosen reading of a missing key. */
  function ReadWith(form: seq<Part>, absent: Value): RawSubmission {
    RawSubmission(
      AsValue(Get(form, "numeroAsociado"), absent),
      AsValue(Get(form, "cedula"), absent),
      AsValue(Get(form, "nombreCompleto"), absent),
      AsValue(Get(form, "correoElectronico"), absent),
      AsValue(Get(form, "telefonoCelular"), absent),
      AsValue(Get(form, "participaraAsamblea"), absent),
      AsValue(Get(form, "representaraOtros"), absent),
      ExtractFiles(form))
  }

  /** Step 3 as written: `formData.get` gives `null` for a missing key, and `null` reaches the schema. */
  function ReadFieldsAsWritten(form: seq<Part>): (raw: RawSubmission)
    ensures Get(form, "telefonoCelular").None? ==> raw.telefonoCelular == Null
    ensures Get(form, "representaraOtros").None? ==> raw.representaraOtros == Null
    ensures raw.archivos == ExtractFiles(form)
  {
    ReadWith(form, Null)
  }

  /** Step 3 as intended: a missing key is an unanswered field. */
  function ReadFields(form: seq<Part>): (raw: RawSubmission)
    ensures Get(form, "telefonoCelular").None? ==> raw.telefonoCelular == Undefined
    ensures Get(form, "representaraOtros").None? ==> raw.representaraOtros == Undefined
    ensures raw.archivos == ExtractFiles(form)
  {
    ReadWith(form, Undefined)
  }

  /**
   * As written, a form that leaves out the optional phone field is always
   * refused: the schema's `.optional()` admits `undefined`, not `null`.
   */
  lemma OmittedPhoneRejectedAsWritten(form: seq<Part>, isEmail: string -> bool)
    requires Get(form, "telefonoCelular").None?
    ensures ValidateSubmission(ReadFieldsAsWritten(form), isEmail).Rejected?
  {
    NullPhoneRejected(ReadFieldsAsWritten(form), isEmail);
  }

  /**
   * As intended, leaving out the phone field is the same as sending it
   * empty: the outcome of the schema does not change.
   */
  lemma OmittedPhoneIsEmptyPhone(form: seq<Part>, isEmail: string -> bool)
    requires Get(form, "telefonoCelular").None?
    ensures ValidateSubmission(ReadFields(form), isEmail) ==
            ValidateSubmission(ReadFields(form + [Part("telefonoCelular", TextEntry(""))]), isEmail)
  {
    PhoneReading(form, Undefined, "");
    EmptyPhoneIsNoPhone(ReadFields(form), isEmail);
  }

  /** Appending a phone entry to a form without one changes only the phone as read, under either reading. */
  lemma PhoneReading(form: seq<Part>, absent: Value, t: string)
    requires Get(form, "telefonoCelular").None?
    ensures ReadWith(form + [Part("telefonoCelular", TextEntry(t))], absent) ==
            ReadWith(form, absent).(telefonoCelular := Str(t))
  {
    var p := Part("telefonoCelular", TextEntry(t));
    GetAppendNew(form, p);
    GetAppend(form, p, "numeroAsociado");
    GetAppend(form, p, "cedula");
    GetAppend(form, p, "nombreCompleto");
    GetAppend(form, p, "correoElectronico");
    GetAppend(form, p, "participaraAsamblea");
    GetAppend(form, p, "representaraOtros");
    ExtractFilesAppend(form, [p]);
    ExtractFilesSingle(p);
    assert ExtractFiles(form + [p]) == ExtractFiles(form);
  }

  /**
   * The two readings differ only on missing keys, and the schema as written
   * accepts no form with a missing key: so every form the code as written
   * accepts reads the same under the corrected reading.
   */
  lemma AcceptedAsWrittenReadsAlike(form: seq<Part>, isEmail: string -> bool)
    requires Acceptable(ReadFieldsAsWritten(form), isEmail)
    ensures ReadFieldsAsWritten(form) == ReadFields(form)
  {
  }

  // ----- The outcome

  datatype MailKind = ToAdmins | ToMember | Notice

  datatype Step =
    | GateChecked
    | FieldsRead
    | FieldsValidated
    | AttachmentsValidated
    | Sent(kind: MailKind, mail: Mail, delivered: bool)

  /** `FormularioRespuesta` */
  datatype Respuesta = Respuesta(
    success: bool,
    message: string,
    error: Option<string>,
    details: Option<string>,
    redirect: Option<string>)

  datatype Outcome = Outcome(response: Respuesta, trace: seq<Step>)

  /** Whether each send succeeds. */
  datatype Delivery = Delivery(admin: bool, confirmation: bool, notice: bool)

  /**
   * The request's instant, the environment and the date stamp shown in the
   * bodies. The gate `validarFechaLimite` closes at the constant
   * `Deadline.FechaCierre`, which no variable overrides.
   */
  datatype Context = Context(now: int, env: Env, stamp: string)

  /**
   * The message of the error `redirect` throws; the framework implements
   * `redirect` by throwing, and the `catch` reports that error's message.
   */
  const RedirectErrorMessage := "NEXT_REDIRECT"

  const SystemErrorResponse := Respuesta(
    false,
    "Error del sistema",
    Some("Ocurrió un error inesperado. Intente nuevamente en unos minutos."),
    Some(RedirectErrorMessage),
    None)

  const AdminSendError := "Error al enviar correo a administradores"
  const ConfirmationSendError := "Error al enviar confirmación"

  /** `errors.map(e => path + ': ' + message).join(', ')` */
  function IssuesText(issues: seq<Issue>): string {
    Join(seq(|issues|, k requires 0 <= k < |issues| => issues[k].path + ": " + issues[k].message), ", ")
  }

  /** The send errors in the order they happen, joined with ", ". */
  function SendErrors(d: Delivery): (text: string)
    ensures !d.admin && d.confirmation ==> text == AdminSendError
    ensures !d.admin && !d.confirmation ==> text == AdminSendError + ", " + ConfirmationSendError
  {
    var errs := (if d.admin then [] else [AdminSendError])
                + (if d.confirmation then [] else [ConfirmationSendError]);
    assert !d.admin && !d.confirmation ==> errs == [AdminSendError, ConfirmationSendError];
    assert Join([AdminSendError, ConfirmationSendError], ", ") == AdminSendError + ", " + Join([ConfirmationSendError], ", ");
    Join(errs, ", ")
  }

  /** The steps of `trace` that are sends. */
  function Sends(trace: seq<Step>): (sends: seq<Step>)
    ensures forall i :: 0 <= i < |sends| ==> sends[i].Sent?
    ensures |sends| <= |trace|
    decreases |trace|
  {
    if trace == [] then []
    else (if trace[0].Sent? then [trace[0]] else []) + Sends(trace[1..])
  }

  lemma {:induction false} SendsAppend(a: seq<Step>, b: seq<Step>)
    ensures Sends(a + b) == Sends(a) + Sends(b)
    decreases |a|
  {
    if a == [] {
      assert a + b == b;
    } else {
      assert (a + b)[0] == a[0];
      assert (a + b)[1..] == a[1..] + b;
      SendsAppend(a[1..], b);
    }
  }

  /** The steps before any send: the send part of the trace is then exactly `sent`. */
  lemma SendsAfterChecks(sent: seq<Step>)
    requires forall i :: 0 <= i < |sent| ==> sent[i].Sent?
    ensures Sends([GateChecked, FieldsRead, FieldsValidated, AttachmentsValidated] + sent) == sent
  {
    var checks := [GateChecked, FieldsRead, FieldsValidated, AttachmentsValidated];
    SendsAppend(checks, sent);
    assert checks[1..][1..][1..][1..] == [];
    assert Sends(checks) == [];
    SendsOfSends(sent);
  }

  lemma {:induction false} SendsOfSends(sent: seq<Step>)
    requires forall i :: 0 <= i < |sent| ==> sent[i].Sent?
    ensures Sends(sent) == sent
    decreases |sent|
  {
    if sent != [] {
      SendsOfSends(sent[1..]);
      assert sent == [sent[0]] + sent[1..];
    }
  }

  /** The record returned when the administrator message went out. */
  const SuccessResponse := Respuesta(true, "Formulario enviado exitosamente", None, None, Some("/enviado"))

  /** The record returned when the administrator message failed, carrying the joined send errors. */
  function SendFailure(details: string): (r: Respuesta)
    ensures !r.success && r.redirect == None && r.details == Some(details)
  {
    Respuesta(
      false,
      "Error al enviar el formulario",
      Some("No se pudo enviar el correo. El equipo técnico ha sido notificado."),
      Some(details),
      None)
  }

  /**
   * The single decision on the send results: success with the redirect
   * exactly when the administrator message went out; otherwise a failure
   * whose details list the failed sends in order.
   */
  function Decide(d: Delivery): (r: Respuesta)
    ensures r.success <==> d.admin
    ensures r.success ==> r.redirect == Some("/enviado") && r.error == None
    ensures !r.success ==> r.redirect == None && r.details == Some(SendErrors(d))
  {
    if d.admin then SuccessResponse else SendFailure(SendErrors(d))
  }

  /**
   * Step 6 onwards: the administrator message and the confirmation are both
   * attempted, the decision is taken on their results, and the notice is
   * attempted only after an administrator failure.
   */
  function SendStage(ctx: Context, datos: Submission, d: Delivery): (o: Outcome)
    ensures |o.trace| == (if d.admin then 2 else 3)
    ensures o.trace[0] == Sent(ToAdmins, AdminMail(ctx.env, datos, ctx.stamp), d.admin)
    ensures o.trace[1] == Sent(ToMember, ConfirmationMail(ctx.env, datos, ctx.stamp), d.confirmation)
    ensures !d.admin ==> o.trace[2] == Sent(Notice, ErrorNoticeMail(ctx.env, datos, SendErrors(d), ctx.stamp), d.notice)
    ensures o.response == Decide(d)
    ensures forall i :: 0 <= i < |o.trace| ==> o.trace[i].Sent?
  {
    var sent := [
      Sent(ToAdmins, AdminMail(ctx.env, datos, ctx.stamp), d.admin),
      Sent(ToMember, ConfirmationMail(ctx.env, datos, ctx.stamp), d.confirmation)];
    if d.admin then Outcome(Decide(d), sent)
    else Outcome(Decide(d), sent + [Sent(Notice, ErrorNoticeMail(ctx.env, datos, SendErrors(d), ctx.stamp), d.notice)])
  }

  /** The condition for reaching the sends, given the fields as read. */
  predicate PassesChecks(ctx: Context, isEmail: string -> bool, raw: RawSubmission) {
    && Deadline.IsOpen(ctx.now, Deadline.FechaCierre)
    && Acceptable(raw, isEmail)
    && ValidateFiles(raw.archivos).valid
  }

  /** The record returned when the schema refuses the fields: the issues joined as `path: message`. */
  function ValidationFailure(issues: seq<Issue>): Respuesta {
    Respuesta(false, "Error de validación", Some(IssuesText(issues)), None, None)
  }

  /** The record returned when the attachment policy refuses the files: its errors joined. */
  function AttachmentFailure(errors: seq<FileError>): Respuesta {
    Respuesta(false, "Error en archivos adjuntos", Some(ErrorsText(errors)), None, None)
  }

  /** The checks before any send. */
  const Checks := [GateChecked, FieldsRead, FieldsValidated, AttachmentsValidated]

  /**
   * Everything after the open gate, given the schema's verdict and the
   * uploaded files: a schema failure or an attachment failure stops before
   * any send with its own message; otherwise the sends follow the checks.
   */
  function AfterGate(ctx: Context, resultado: Parsed<Submission>, archivos: seq<File>, d: Delivery): (o: Outcome)
    ensures resultado.Rejected? ==>
              o.trace == [GateChecked, FieldsRead, FieldsValidated] &&
              Sends(o.trace) == [] && o.response == ValidationFailure(resultado.issues)
    ensures resultado.Accepted? && !ValidateFiles(archivos).valid ==>
              o.trace == Checks && Sends(o.trace) == [] &&
              o.response == AttachmentFailure(ValidateFiles(archivos).errors)
    ensures resultado.Accepted? && ValidateFiles(archivos).valid ==>
              o == Outcome(Decide(d), Checks + SendStage(ctx, resultado.value, d).trace) &&
              Sends(o.trace) == SendStage(ctx, resultado.value, d).trace
  {
    if resultado.Rejected? then
      SendsAppend([GateChecked, FieldsRead], [FieldsValidated]);
      Outcome(
        ValidationFailure(resultado.issues),
        [GateChecked, FieldsRead, FieldsValidated])
    else
      var validacionArchivos := ValidateFiles(archivos);
      if !validacionArchivos.valid then
        SendsAfterChecks([]);
        Outcome(
          AttachmentFailure(validacionArchivos.errors),
          Checks)
      else
        var sent := SendStage(ctx, resultado.value, d);
        SendsAfterChecks(sent.trace);
        Outcome(sent.response, Checks + sent.trace)
  }

  /**
   * The action from the gate on, given the fields as read. A closed form
   * stops at the gate with the generic system-error record, whose details
   * are the message of the error `redirect` throws. A schema failure or an
   * attachment failure stops before any send. Otherwise the administrator
   * message is sent, then the confirmation whatever the first result was;
   * the outcome is a success with redirect '/enviado' exactly when the
   * administrator message went out.
   */
  function ProcessFields(ctx: Context, isEmail: string -> bool, raw: RawSubmission, d: Delivery): (o: Outcome)
    ensures !Deadline.IsOpen(ctx.now, Deadline.FechaCierre) ==> o.trace == [GateChecked]
    ensures !Deadline.IsOpen(ctx.now, Deadline.FechaCierre) ==>
              && o.response.message == "Error del sistema"
              && o.response.details == Some(RedirectErrorMessage)
              && !o.response.success && o.response.redirect == None
    ensures !PassesChecks(ctx, isEmail, raw) ==> Sends(o.trace) == []
    ensures Deadline.IsOpen(ctx.now, Deadline.FechaCierre) && ValidateSubmission(raw, isEmail).Rejected? ==>
              o.response == ValidationFailure(ValidateSubmission(raw, isEmail).issues)
    ensures Deadline.IsOpen(ctx.now, Deadline.FechaCierre) && Acceptable(raw, isEmail) && !ValidateFiles(raw.archivos).valid ==>
              o.response == AttachmentFailure(ValidateFiles(raw.archivos).errors)
    ensures PassesChecks(ctx, isEmail, raw) ==>
              Sends(o.trace) == SendStage(ctx, ValidateSubmission(raw, isEmail).value, d).trace &&
              o.response == Decide(d)
    ensures o.response.success <==> PassesChecks(ctx, isEmail, raw) && d.admin
    ensures o.response.success ==> o.response.redirect == Some("/enviado")
  {
    if !Deadline.IsOpen(ctx.now, Deadline.FechaCierre) then
      assert Sends([GateChecked]) == Sends([GateChecked][1..]);
      Outcome(SystemErrorResponse, [GateChecked])
    else
      AfterGate(ctx, ValidateSubmission(raw, isEmail), raw.archivos, d)
  }

  /**
   * The checks run in order and each refusal ends the trace: a schema
   * refusal after reading and validating the fields, an attachment refusal
   * after all four checks. Any send comes after all four.
   */
  lemma ChecksComeFirst(ctx: Context, isEmail: string -> bool, raw: RawSubmission, d: Delivery)
    requires Deadline.IsOpen(ctx.now, Deadline.FechaCierre)
    ensures ValidateSubmission(raw, isEmail).Rejected? ==>
              ProcessFields(ctx, isEmail, raw, d).trace == [GateChecked, FieldsRead, FieldsValidated]
    ensures Acceptable(raw, isEmail) ==>
              ProcessFields(ctx, isEmail, raw, d).trace ==
              Checks + Sends(ProcessFields(ctx, isEmail, raw, d).trace)
  {
    var r := ValidateSubmission(raw, isEmail);
    assert ProcessFields(ctx, isEmail, raw, d) == AfterGate(ctx, r, raw.archivos, d);
    AfterGateOrder(ctx, r, raw.archivos, d);
  }

  /** Once the schema accepts, the trace is the four checks followed by the sends alone. */
  lemma AfterGateOrder(ctx: Context, resultado: Parsed<Submission>, archivos: seq<File>, d: Delivery)
    ensures resultado.Accepted? ==>
              AfterGate(ctx, resultado, archivos, d).trace == Checks + Sends(AfterGate(ctx, resultado, archivos, d).trace)
  {
    if resultado.Accepted? && !ValidateFiles(archivos).valid {
      assert Checks + [] == Checks;
    }
  }

  /**
   * `procesarFormulario` as written: the fields are read with a missing key
   * as `null`. Nothing is sent unless the gate, the schema and the
   * attachments all pass, and the outcome is a success exactly when they
   * pass and the administrator message went out; a form without a phone
   * entry never gets that far.
   */
  function ProcesarFormulario(ctx: Context, isEmail: string -> bool, form: seq<Part>, d: Delivery): (o: Outcome)
    ensures !Deadline.IsOpen(ctx.now, Deadline.FechaCierre) ==> o.response == SystemErrorResponse && Sends(o.trace) == []
    ensures !PassesChecks(ctx, isEmail, ReadFieldsAsWritten(form)) ==> Sends(o.trace) == []
    ensures Deadline.IsOpen(ctx.now, Deadline.FechaCierre) && ValidateSubmission(ReadFieldsAsWritten(form), isEmail).Rejected? ==>
              o.response == ValidationFailure(ValidateSubmission(ReadFieldsAsWritten(form), isEmail).issues)
    ensures Deadline.IsOpen(ctx.now, Deadline.FechaCierre) && Acceptable(ReadFieldsAsWritten(form), isEmail) && !ValidateFiles(ExtractFiles(form)).valid ==>
              o.response == AttachmentFailure(ValidateFiles(ExtractFiles(form)).errors)
    ensures PassesChecks(ctx, isEmail, ReadFieldsAsWritten(form)) ==>
              Sends(o.trace) == SendStage(ctx, ValidateSubmission(ReadFieldsAsWritten(form), isEmail).value, d).trace &&
              o.response == Decide(d)
    ensures o.response.success <==> PassesChecks(ctx, isEmail, ReadFieldsAsWritten(form)) && d.admin
    ensures o.response.success ==> o.response.redirect == Some("/enviado")
    ensures Get(form, "telefonoCelular").None? ==> Sends(o.trace) == [] && !o.response.success
  {
    OmittedPhoneFailsChecks(ctx, isEmail, form);
    ProcessFields(ctx, isEmail, ReadFieldsAsWritten(form), d)
  }

  /** As written, a form without a phone entry never passes the checks before the sends. */
  lemma OmittedPhoneFailsChecks(ctx: Context, isEmail: string -> bool, form: seq<Part>)
    ensures Get(form, "telefonoCelular").None? ==> !PassesChecks(ctx, isEmail, ReadFieldsAsWritten(form))
  {
  }

  /**
   * `procesarFormulario` with the corrected reading: a missing key is an
   * unanswered field. It accepts every form the code as written accepts,
   * with the same outcome, and also a form that leaves out an optional field.
   */
  function ProcesarFormularioCorrected(ctx: Context, isEmail: string -> bool, form: seq<Part>, d: Delivery): (o: Outcome)
    ensures !Deadline.IsOpen(ctx.now, Deadline.FechaCierre) ==> o.response == SystemErrorResponse && Sends(o.trace) == []
    ensures !PassesChecks(ctx, isEmail, ReadFields(form)) ==> Sends(o.trace) == []
    ensures Deadline.IsOpen(ctx.now, Deadline.FechaCierre) && ValidateSubmission(ReadFields(form), isEmail).Rejected? ==>
              o.response == ValidationFailure(ValidateSubmission(ReadFields(form), isEmail).issues)
    ensures Deadline.IsOpen(ctx.now, Deadline.FechaCierre) && Acceptable(ReadFields(form), isEmail) && !ValidateFiles(ExtractFiles(form)).valid ==>
              o.response == AttachmentFailure(ValidateFiles(ExtractFiles(form)).errors)
    ensures PassesChecks(ctx, isEmail, ReadFields(form)) ==>
              Sends(o.trace) == SendStage(ctx, ValidateSubmission(ReadFields(form), isEmail).value, d).trace &&
              o.response == Decide(d)
    ensures o.response.success <==> PassesChecks(ctx, isEmail, ReadFields(form)) && d.admin
    ensures o.response.success ==> o.response.redirect == Some("/enviado")
  {
    ProcessFields(ctx, isEmail, ReadFields(form), d)
  }

  /** The correction only adds acceptances: whatever the code as written sends and answers, the corrected action does too. */
  lemma CorrectionKeepsAcceptedForms(ctx: Context, isEmail: string -> bool, form: seq<Part>, d: Delivery)
    requires PassesChecks(ctx, isEmail, ReadFieldsAsWritten(form))
    ensures ProcesarFormularioCorrected(ctx, isEmail, form, d) == ProcesarFormulario(ctx, isEmail, form, d)
  {
    AcceptedAsWrittenReadsAlike(form, isEmail);
  }

  /** The result of the error notice never changes the response. */
  lemma NoticeResultIrrelevant(ctx: Context, isEmail: string -> bool, form: seq<Part>, d: Delivery)
    ensures ProcesarFormulario(ctx, isEmail, form, d).response ==
            ProcesarFormulario(ctx, isEmail, form, d.(notice := !d.notice)).response
  {
  }

  /** The confirmation result changes at most the details of a failure, never success. */
  lemma ConfirmationDoesNotDecide(ctx: Context, isEmail: string -> bool, form: seq<Part>, d: Delivery)
    ensures ProcesarFormulario(ctx, isEmail, form, d).response.success ==
            ProcesarFormulario(ctx, isEmail, form, d.(confirmation := !d.confirmation)).response.success
  {
  }

  /** The form of the examples below: a member who takes part, represents no one, and gives no phone or files. */
  const ExampleForm := [
    Part("numeroAsociado", TextEntry("12345")),
    Part("cedula", TextEntry("301020999")),
    Part("nombreCompleto", TextEntry("Juan Pérez")),
    Part("correoElectronico", TextEntry("juan@example.com")),
    Part("participaraAsamblea", TextEntry("si")),
    Part("representaraOtros", TextEntry("no"))]

  /** The same form with a phone entry. */
  const PhoneForm := ExampleForm + [Part("telefonoCelular", TextEntry("8888-7777"))]

  lemma ExampleIdentity()
    ensures Get(ExampleForm, "numeroAsociado") == Some(TextEntry("12345"))
    ensures Get(ExampleForm, "cedula") == Some(TextEntry("301020999"))
    ensures Get(ExampleForm, "nombreCompleto") == Some(TextEntry("Juan Pérez"))
  {
  }

  lemma ExampleContact()
    ensures Get(ExampleForm, "correoElectronico") == Some(TextEntry("juan@example.com"))
    ensures Get(ExampleForm, "telefonoCelular") == None
  {
  }

  lemma ExampleAnswers()
    ensures Get(ExampleForm, "participaraAsamblea") == Some(TextEntry("si"))
    ensures Get(ExampleForm, "representaraOtros") == Some(TextEntry("no"))
  {
  }

  lemma ExampleNoFiles()
    ensures ExtractFiles(ExampleForm) == []
  {
  }

  /** The fields the example form carries; the missing phone is read as `absent`. */
  function ExampleRaw(absent: Value): RawSubmission {
    RawSubmission(
      Str("12345"), Str("301020999"), Str("Juan Pérez"), Str("juan@example.com"),
      absent, Str("si"), Str("no"), [])
  }

  /** What step 3 reads from the example form. */
  lemma ExampleFields(absent: Value)
    ensures ReadWith(ExampleForm, absent) == ExampleRaw(absent)
  {
    ExampleIdentity();
    ExampleContact();
    ExampleAnswers();
    ExampleNoFiles();
  }

  /** The schema accepts the example fields whenever the e-mail check accepts the address and the phone is a string or missing. */
  lemma ExampleRawAcceptable(isEmail: string -> bool, phone: Value)
    requires isEmail("juan@example.com")
    requires phone.Undefined? || phone.Str?
    ensures Acceptable(ExampleRaw(phone), isEmail)
  {
    assert DigitString("12345") && DigitString("301020999");
    assert |"Juan Pérez"| == 10;
  }

  /**
   * The complete example as written: with the form open, an address the
   * e-mail check accepts and the administrator message delivered, the
   * form with a phone ends in a success with the redirect.
   */
  lemma EndToEndExample(ctx: Context, isEmail: string -> bool, d: Delivery)
    requires Deadline.IsOpen(ctx.now, Deadline.FechaCierre)
    requires isEmail("juan@example.com")
    requires d.admin
    ensures var o := ProcesarFormulario(ctx, isEmail, PhoneForm, d);
            o.response.success && o.response.redirect == Some("/enviado")
  {
    PhoneFormFields();
    ExampleRawAcceptable(isEmail, Str("8888-7777"));
    assert ValidateFiles([]).valid;
    assert PassesChecks(ctx, isEmail, ReadFieldsAsWritten(PhoneForm));
  }

  /** What the code as written reads from the form with a phone: every field is present. */
  lemma PhoneFormFields()
    ensures ReadFieldsAsWritten(PhoneForm) == ExampleRaw(Str("8888-7777"))
  {
    ExampleContact();
    PhoneReading(ExampleForm, Null, "8888-7777");
    ExampleFields(Null);
  }

  /**
   * The same form without its phone entry: the code as written refuses it
   * and sends nothing, while the corrected action accepts it.
   */
  lemma OmittedPhoneExample(ctx: Context, isEmail: string -> bool, d: Delivery)
    requires Deadline.IsOpen(ctx.now, Deadline.FechaCierre)
    requires isEmail("juan@example.com")
    requires d.admin
    ensures var o := ProcesarFormulario(ctx, isEmail, ExampleForm, d);
            !o.response.success && Sends(o.trace) == []
    ensures var o := ProcesarFormularioCorrected(ctx, isEmail, ExampleForm, d);
            o.response.success && o.response.redirect == Some("/enviado")
  {
    ExampleContact();
    ExampleFields(Undefined);
    ExampleRawAcceptable(isEmail, Undefined);
    assert ValidateFiles([]).valid;
    assert PassesChecks(ctx, isEmail, ReadFields(ExampleForm));
  }
}
