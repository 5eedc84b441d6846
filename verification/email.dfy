/**
 * Assembly of the three notification messages: the one to the
 * administrators (with the attachments), the confirmation to the member,
 * and the error notice. Environment variables are a parameter, the date
 * stamp shown in each body is a parameter, and sending is not modelled here.
 */
module Email {
  import opened Wrappers
  import opened Text
  import opened Attachments
  import opened Validation

  /** The environment variables the builders read; `None` is unset. */
  datatype Env = Env(
    mailFromName: Option<string>,
    mailFrom: Option<string>,
    mailToAdmin: Option<string>,
    mailReplyTo: Option<string>)

  datatype Attachment = Attachment(filename: string, contentType: string)

  /**
   * The plain-text body of a message, kept as the template it comes from
   * and that template's arguments; `Render` gives the characters sent.
   */
  datatype Body =
    | AdminText(d: Submission, stamp: string)
    | ConfirmationText(d: Submission, stamp: string)
    | NoticeText(d: Submission, error: string, stamp: string)

  datatype Mail = Mail(
    fromName: string,
    fromAddress: string,
    to: seq<string>,
    subject: string,
    text: Body,
    attachments: seq<Attachment>,
    replyTo: string)

  const DefaultFromName := "COOPECOBANA R.L."
  const NoticeFromName := "COOPECOBANA Sistema"
  const DefaultFromAddress := "noreply@coopecobanarl.com"
  const DefaultReplyTo := "achaconf@coopecobanarl.com"
  const ConfirmationPrefix := "Confirmación de envío – "
  const NoticeSubject := "Error en envío de formulario"

  /** `variable || fallback`: both an unset and an empty variable fall back. */
  function OrDefault(v: Option<string>, fallback: string): (r: string)
    ensures v.Some? && v.value != "" ==> r == v.value
    ensures v.None? || v.value == "" ==> r == fallback
  {
    if v.Some? && v.value != "" then v.value else fallback
  }

  /**
   * `MAIL_TO_ADMIN?.split(',').map(e => e.trim()) || []`: no recipient when
   * the variable is unset; otherwise one trimmed entry per comma-separated
   * piece, so an empty variable gives one empty entry.
   */
  function AdminRecipients(env: Env): (to: seq<string>)
    ensures env.mailToAdmin.None? ==> to == []
    ensures env.mailToAdmin.Some? ==>
              |to| == |Split(env.mailToAdmin.value, ',')| >= 1 &&
              forall k :: 0 <= k < |to| ==> ',' !in to[k] && to[k] == Trim(Split(env.mailToAdmin.value, ',')[k])
  {
    match env.mailToAdmin
    case None => []
    case Some(list) =>
      var pieces := Split(list, ',');
      seq(|pieces|, k requires 0 <= k < |pieces| => Trim(pieces[k]))
  }

  /**
   * A variable written as comma-separated addresses without white space
   * yields exactly those addresses, in order.
   */
  lemma RecipientsOfList(env: Env, addresses: seq<string>)
    requires |addresses| >= 1
    requires forall k :: 0 <= k < |addresses| ==> ',' !in addresses[k] && NoSpace(addresses[k])
    requires env.mailToAdmin == Some(Join(addresses, ","))
    ensures AdminRecipients(env) == addresses
  {
    JoinThenSplit(addresses, ',');
    forall k | 0 <= k < |addresses|
      ensures Trim(addresses[k]) == addresses[k]
    {
      TrimNoSpace(addresses[k]);
    }
  }

  /** Participation as the administrators read it. */
  function ParticipationLabel(p: YesNo): (shown: string)
    ensures shown == "SÍ participará" <==> p == Si
    ensures shown == "NO participará" <==> p == No
  {
    match p
    case Si => "SÍ participará"
    case No => "NO participará"
  }

  /** Representation as the administrators read it; 'No aplica' when it was not answered. */
  function RepresentationLabel(r: Option<YesNo>): (shown: string)
    ensures shown == "No aplica" <==> r.None?
    ensures shown == "SÍ representará a otros" <==> r == Some(Si)
    ensures shown == "NO representará a otros" <==> r == Some(No)
  {
    match r
    case None => "No aplica"
    case Some(Si) => "SÍ representará a otros"
    case Some(No) => "NO representará a otros"
  }

  /** `Math.round(size / 1024)`: the nearest whole number of KiB, halves rounded up. */
  function RoundKB(size: nat): (kb: nat)
    ensures kb * 1024 <= size + 512 < kb * 1024 + 1024
  {
    (size + 512) / 1024
  }

  /** The attachment record of each file: same name and content type, same order. */
  function AttachmentsOf(files: seq<File>): (atts: seq<Attachment>)
    ensures |atts| == |files|
    ensures forall k :: 0 <= k < |files| ==>
              atts[k].filename == files[k].name && atts[k].contentType == files[k].mime
  {
    seq(|files|, k requires 0 <= k < |files| => Attachment(files[k].name, files[k].mime))
  }

  /**
   * The numbered list of the administrator body: line `k` (from 1) names the
   * `k`-th attachment and its size rounded to KiB.
   */
  function FileLines(files: seq<File>): (lines: seq<string>)
    ensures |lines| == |files|
    ensures forall k :: 0 <= k < |files| ==>
              lines[k] == NatToString(k + 1) + ". " + AttachmentsOf(files)[k].filename
                          + " (" + NatToString(RoundKB(files[k].size)) + " KB)"
  {
    seq(|files|, k requires 0 <= k < |files| =>
      NatToString(k + 1) + ". " + files[k].name + " (" + NatToString(RoundKB(files[k].size)) + " KB)")
  }

  /** The attachment count followed by the numbered list. */
  function FileBlock(files: seq<File>): string {
    "Cantidad de archivos adjuntos: " + NatToString(|files|) + "\n" + Join(FileLines(files), "\n")
  }

  /** `telefonoCelular || 'No proporcionado'` */
  function PhoneText(t: Option<string>): string {
    OrDefault(t, "No proporcionado")
  }

  /** The heading of the administrator body. */
  const AdminTitle := "FORMULARIO" + " DE REPRESENTACIÓN - ASAMBLEA GENERAL COOPECOBANA"

  /** The administrator body from its title through the `ADJUNTOS` heading. */
  function AdminHead(d: Submission): string {
    AdminTitle + AdminFields(d)
  }

  /** The member's data and answers, as the administrator body lists them. */
  function AdminFields(d: Submission): string {
    "\n\n"
    + "DATOS DEL ASOCIADO:\n==================\n"
    + "Número de Asociado: " + d.numeroAsociado + "\n"
    + "Cédula: " + d.cedula + "\n"
    + "Nombre Completo: " + d.nombreCompleto + "\n"
    + "Correo Electrónico: " + d.correoElectronico + "\n"
    + "Teléfono Celular: " + PhoneText(d.telefonoCelular) + "\n\n"
    + "PARTICIPACIÓN:\n==============\n"
    + "Participará en la Asamblea: " + ParticipationLabel(d.participaraAsamblea) + "\n"
    + "Representará a otros asociados: " + RepresentationLabel(d.representaraOtros) + "\n\n"
    + "ADJUNTOS:\n=========\n"
  }

  const AdminSignature := "\n\n--\nEste correo fue generado automáticamente por el sistema de formularios de COOPECOBANA" + "."

  /** The administrator body up to the date line. */
  function AdminCore(d: Submission): string {
    AdminHead(d) + FileBlock(d.archivos) + AdminSignature
  }

  /** `generarCorreoAdministradores`, trimmed as the source trims it. */
  function AdminBody(d: Submission, stamp: string): string {
    Trim("\n" + AdminCore(d) + ("\nFecha de envío: " + stamp + "\n"))
  }

  lemma AdminCoreEnds(d: Submission)
    ensures var core := AdminCore(d); |core| > 0 && core[0] == 'F' && core[|core| - 1] == '.'
  {
    AdminHeadStarts(d);
    assert AdminSignature[|AdminSignature| - 1] == '.';
    EndsOf(AdminHead(d), FileBlock(d.archivos), AdminSignature);
  }

  lemma AdminHeadStarts(d: Submission)
    ensures |AdminHead(d)| > 0 && AdminHead(d)[0] == 'F'
  {
    assert AdminTitle[0] == 'F';
  }

  /** A concatenation starts as its first piece and ends as its last. */
  lemma EndsOf(a: string, b: string, c: string)
    requires a != [] && c != []
    ensures var w := a + b + c; |w| > 0 && w[0] == a[0] && w[|w| - 1] == c[|c| - 1]
  {
  }

  /**
   * The administrator body states the attachment count and lists every
   * attachment, whatever the date stamp: the final trim never reaches them.
   */
  lemma AdminBodyListsFiles(d: Submission, stamp: string)
    ensures Contains(AdminBody(d, stamp), FileBlock(d.archivos))
  {
    AdminCoreEnds(d);
    TrimKeepsCore("\n", AdminCore(d), "\nFecha de envío: " + stamp + "\n");
    ContainsInner(AdminBody(d, stamp), AdminHead(d), FileBlock(d.archivos), AdminSignature);
  }

  /**
   * `enviarCorreoAdministradores`: to the configured administrators, with
   * the cédula alone as subject and one attachment per file in order.
   */
  function AdminMail(env: Env, d: Submission, stamp: string): (m: Mail)
    ensures m.subject == d.cedula
    ensures m.to == AdminRecipients(env)
    ensures |m.attachments| == |d.archivos|
    ensures forall k :: 0 <= k < |d.archivos| ==>
              m.attachments[k] == Attachment(d.archivos[k].name, d.archivos[k].mime)
    ensures m.fromName == OrDefault(env.mailFromName, DefaultFromName)
    ensures m.fromAddress == OrDefault(env.mailFrom, DefaultFromAddress)
    ensures m.replyTo == OrDefault(env.mailReplyTo, DefaultReplyTo)
    ensures m.text == AdminText(d, stamp)
  {
    Mail(
      OrDefault(env.mailFromName, DefaultFromName),
      OrDefault(env.mailFrom, DefaultFromAddress),
      AdminRecipients(env),
      d.cedula,
      AdminText(d, stamp),
      AttachmentsOf(d.archivos),
      OrDefault(env.mailReplyTo, DefaultReplyTo))
  }

  function SiNo(p: YesNo): string {
    if p == Si then "Sí" else "No"
  }

  /** `generarCorreoConfirmacion`, trimmed as the source trims it. */
  function ConfirmationBody(d: Submission, stamp: string): string {
    Trim(
      "\nEstimado/a " + d.nombreCompleto + ",\n\n"
      + "Su formulario de representación para la Asamblea General de COOPECOBANA ha sido recibido exitosamente.\n\n"
      + "RESUMEN DE SU ENVÍO:\n===================\n"
      + "Número de Asociado: " + d.numeroAsociado + "\n"
      + "Cédula: " + d.cedula + "\n"
      + "Participará en la Asamblea: " + SiNo(d.participaraAsamblea) + "\n"
      + (match d.representaraOtros
         case Some(r) => "Representará a otros: " + SiNo(r)
         case None => "")
      + "\nArchivos adjuntos: " + NatToString(|d.archivos|) + "\n\n"
      + "INFORMACIÓN IMPORTANTE:\n======================\n"
      + "• Su información ha sido transmitida de forma segura\n"
      + "• No es necesario enviar el formulario nuevamente\n"
      + "• Conserve este correo como comprobante\n"
      + "• Para consultas, contacte a: coopecobana@outlook.com\n\n"
      + "Gracias por su participación.\n\n"
      + "Atentamente,\nCOOPECOBANA R.L.\n\n"
      + "--\nEste es un correo automático. No responda a esta dirección.\n"
      + "Fecha: " + stamp + "\n")
  }

  /** 'Confirmación de envío – ' followed by the cédula, which can be read back from it. */
  function ConfirmationSubject(cedula: string): (subject: string)
    ensures |subject| == |ConfirmationPrefix| + |cedula|
    ensures subject[..|ConfirmationPrefix|] == ConfirmationPrefix
    ensures subject[|ConfirmationPrefix|..] == cedula
  {
    ConfirmationPrefix + cedula
  }

  /**
   * `enviarCorreoConfirmacion`: to the member's address only, with the
   * confirmation subject and no attachments.
   */
  function ConfirmationMail(env: Env, d: Submission, stamp: string): (m: Mail)
    ensures m.to == [d.correoElectronico]
    ensures m.subject == ConfirmationSubject(d.cedula)
    ensures m.attachments == []
    ensures m.fromName == OrDefault(env.mailFromName, DefaultFromName)
    ensures m.replyTo == OrDefault(env.mailReplyTo, DefaultReplyTo)
  {
    Mail(
      OrDefault(env.mailFromName, DefaultFromName),
      OrDefault(env.mailFrom, DefaultFromAddress),
      [d.correoElectronico],
      ConfirmationSubject(d.cedula),
      ConfirmationText(d, stamp),
      [],
      OrDefault(env.mailReplyTo, DefaultReplyTo))
  }

  /** The administrator subject is the tail of the confirmation subject: both name the same cédula. */
  lemma SubjectsAgree(env: Env, d: Submission, stamp: string)
    ensures ConfirmationMail(env, d, stamp).subject[|ConfirmationPrefix|..] == AdminMail(env, d, stamp).subject
  {
  }

  /** `contenidoError`, trimmed as the source trims it. */
  function NoticeBody(d: Submission, error: string, stamp: string): string {
    Trim(
      "\nERROR EN ENVÍO DE FORMULARIO - COOPECOBANA\n\n"
      + "DATOS DEL INTENTO:\n==================\n"
      + "Cédula: " + d.cedula + "\n"
      + "Nombre: " + d.nombreCompleto + "\n"
      + "Correo: " + d.correoElectronico + "\n"
      + "Fecha del error: " + stamp + "\n\n"
      + "ERROR TÉCNICO:\n==============\n"
      + error + "\n\n"
      + "NOTA: Este envío falló y NO se procesó correctamente.\n"
      + "Los datos NO fueron adjuntados a este correo por seguridad.\n\n"
      + "--\nSistema de formularios COOPECOBANA\n")
  }

  /**
   * `enviarNotificacionError`: to the administrators, fixed subject, no
   * attachments, and its own fallback sender name.
   */
  function ErrorNoticeMail(env: Env, d: Submission, error: string, stamp: string): (m: Mail)
    ensures m.to == AdminRecipients(env)
    ensures m.subject == NoticeSubject
    ensures m.attachments == []
    ensures m.fromName == OrDefault(env.mailFromName, NoticeFromName)
    ensures m.replyTo == OrDefault(env.mailReplyTo, DefaultReplyTo)
  {
    Mail(
      OrDefault(env.mailFromName, NoticeFromName),
      OrDefault(env.mailFrom, DefaultFromAddress),
      AdminRecipients(env),
      NoticeSubject,
      NoticeText(d, error, stamp),
      [],
      OrDefault(env.mailReplyTo, DefaultReplyTo))
  }

  /** The text of the administrator message lists every attachment. */
  lemma AdminMailListsFiles(env: Env, d: Submission, stamp: string)
    ensures Contains(Render(AdminMail(env, d, stamp).text), FileBlock(d.archivos))
  {
    AdminBodyListsFiles(d, stamp);
  }

  /** The text each template produces. */
  function Render(b: Body): string {
    match b
    case AdminText(d, stamp) => AdminBody(d, stamp)
    case ConfirmationText(d, stamp) => ConfirmationBody(d, stamp)
    case NoticeText(d, error, stamp) => NoticeBody(d, error, stamp)
  }
}
