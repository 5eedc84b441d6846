# COOPECOBANA representation form — a Dafny model

This project models the server side of the COOPECOBANA general-assembly
representation form. It also models the client-side helpers that share its
rules.

- **Submission schema.** Field rules and normalisation for the member number,
  cédula, name, e-mail, phone and the two yes/no answers. The rule that a
  member who takes part must say whether they represent others.
- **Attachment policy** `validarArchivos`:
  - each file is checked for size, then for MIME type or extension;
  - the files that pass are summed;
  - the sum is checked against 20 MiB.
- **Deadline gate** and the remaining-time text of `obtenerTiempoRestante` and
  `useFormAvailability`.
- **Server action** `procesarFormulario`:
  - the gate;
  - reading the posted form;
  - the schema and the attachment policy;
  - the administrator and confirmation mails;
  - the error notice;
  - the response record.
- **Uploader** (`FileUpload`) as a state machine over the file list.
- **String helpers**: digit cleaning, cédula and phone formats, file-type
  detection, and the client e-mail pattern as an automaton.
- **Form status** (`useFormState`).
- **Message assembly**: recipients, subjects, attachments, labels and the
  administrator body.

## Inputs and outputs as parameters

Instants are integer milliseconds. The form has three readings of its closing
instant:

- The server gate `validarFechaLimite` reads the constant
  `FORM_CONSTANTS.FECHA_CIERRE`, modelled as `Deadline.FechaCierre`.
- The client hook `useFormAvailability` hard-codes the same instant.
- `obtenerTiempoRestante` alone reads `FORM_CLOSE_DATE` and falls back on that
  instant (`Deadline.ServerCutoff`). The variable is given as the instant it
  denotes. The server's remaining time agrees with the page and the gate only
  when the variable is unset or names that instant
  (`Deadline.ServerAgreesWithPageIff`).

The model does not perform sends. The outcome of each send is a `Delivery`
record of three booleans. The server action returns its response together with
a trace of the steps it took, so a proof can say which mails were attempted and
in what order. Other inputs are parameters as well:

- the environment variables (`Email.Env`);
- the date stamp printed in the bodies;
- the schema library's e-mail check (`isEmail`).

Modules:

- `Wrappers`: `Option`.
- `Text`: character classes, `trim`, `toLowerCase`, `split`/`join`/`pop`, number
  rendering and containment.
- `Attachments`, `Validation`, `Deadline`, `Formatting`, `FormState` (in
  `hooks.dfy`), `Upload`, `Email`, `Submit`.

Where the product description and the code differ, the model follows the code:

- A cédula with hyphens is **refused**. The digits-only check runs before the
  strip, so the strip never has anything to remove (`Validation.HyphenatedCedulaRejected`).
- The schema requires the representation answer only after a 'si' to
  participation, and it accepts a 'no' with no representation answer
  (`Validation.RepresentationOnlyRequiredForSi`). The server action as written
  still refuses such a form when the entry is missing altogether, because the
  missing entry reaches the schema as `null` (see Findings).
- Success depends only on the administrator mail, although a comment there
  speaks of "at least one" mail (`Submit.ProcesarFormulario`, `Submit.ConfirmationDoesNotDecide`).
- A closed form does not reach `/cerrado` as a result. `redirect` throws inside
  the `try`, and the `catch` returns the generic 'Error del sistema' record
  (`Submit.ProcessFields`).

`Submit.ProcesarFormulario` is the action as written: a key that was not
posted reaches the schema as `null`. `Submit.ProcesarFormularioCorrected` is
the same action with a missing key read as an unanswered field. The Findings
section explains the difference.

## Model

| member | source | states |
|---|---|---|
| Text.DigitsAppend | src/app/lib/utils.ts:128-130 | Removing non-digits distributes over concatenation, so the digits keep their order |
| Text.DigitsOfAllDigits | src/app/lib/validations.ts:18-22 | On an all-digit string the strip `replace(/\D/g, '')` is the identity |
| Text.DigitsEmpty | src/app/lib/validations.ts:38-42 | Nothing survives the strip exactly when the input holds no digit |
| Text.TrimNoSpace | src/app/lib/validations.ts:11-15 | Trimming a string without white space leaves it unchanged |
| Text.TrimKeepsCore | src/app/lib/email.ts:44-70 | A piece that starts and ends with a non-space character survives the final `.trim()` of a template, whatever surrounds it |
| Text.LowerCharSpec | src/app/lib/validations.ts:36 | An upper-case ASCII letter becomes its lower-case letter, 32 code points on; every other character is unchanged; the result is never upper-case |
| Text.Lower | src/app/lib/validations.ts:36 | Lower-casing keeps the length and maps each character on its own |
| Text.LowerHasNoUpper | src/app/lib/validations.ts:36 | A lower-cased string holds no upper-case ASCII letter |
| Text.LowerIdempotent | src/app/lib/validations.ts:36 | Lower-casing twice equals lower-casing once |
| Text.LowerFixedPointIff | src/app/lib/validations.ts:36 | Lower-casing changes nothing iff the string holds no upper-case letter |
| Text.Split | src/app/lib/email.ts:137 | `split(',')` gives at least one piece, and no piece holds the separator |
| Text.SplitThenJoin | src/app/lib/email.ts:137 | Joining the pieces of a split with the separator gives the original string back |
| Text.JoinThenSplit | src/app/lib/email.ts:137 | Splitting a join of separator-free pieces gives the pieces back |
| Text.LastPieceOfSplit | src/app/lib/validations.ts:80 | `split('.').pop()` equals the text after the last dot |
| Text.LastSegmentShape | src/app/lib/validations.ts:80 | The text after the last separator is a separator-free suffix; it is the whole string when there is no separator |
| Text.IncludesIff | src/app/lib/validations.ts:89-90 | `includes` holds exactly for members of the list |
| Text.ParseRendered | src/app/lib/validations.ts:84 | Rendering a number in a template loses no information: reading the digits back gives the number |
| Text.RenderingInjective | src/app/lib/validations.ts:84 | Different positions are rendered as different texts |
| Attachments.ExtensionShape | src/app/lib/validations.ts:80 | The extension holds no dot, is no longer than the name, and is the whole lower-cased name when the name has no dot |
| Attachments.ExtensionIgnoresCase | src/app/lib/validations.ts:80 | The extension does not depend on letter case: a lower-cased name has the same extension |
| Attachments.TypeAllowedIff | src/app/types/index.ts:166-171 | The MIME test accepts exactly the four listed types |
| Attachments.ExtensionAllowedIff | src/app/lib/validations.ts:90 | The extension test accepts exactly pdf, jpg, jpeg, png and docx, with the dot removed; an empty extension is refused |
| Attachments.Verdict | src/app/lib/validations.ts:82-95 | A file is too large iff its size exceeds 10 MiB. Only a file within the size limit can have a type error, and it has one iff both its MIME type and its extension are outside the lists |
| Attachments.ScanMatchesReference | src/app/lib/validations.ts:77-99 | The left-to-right loop computes exactly the declarative results: the errors of the failing files, the ordered list of passing files, and the sum of their sizes |
| Attachments.ValidateFiles | src/app/lib/validations.ts:71-113 | The accepted files are the passing ones, and the total is their size sum. The errors are the individual errors followed by one aggregate error iff the total exceeds 20 MiB. `esValido` holds iff there are no errors |
| Attachments.IndividualErrorsTagged | src/app/lib/validations.ts:77-95 | Each individual error names a file by its index plus one, and reports that file's verdict |
| Attachments.IndividualErrorsOrdered | src/app/lib/validations.ts:77-95 | Individual errors follow file order, so no file is named twice |
| Attachments.IndividualErrorsComplete | src/app/lib/validations.ts:77-95 | Every failing file is named by an error |
| Attachments.NoIndividualErrorsIff | src/app/lib/validations.ts:77-95 | There are no individual errors iff every file passes |
| Attachments.PassingSpec | src/app/lib/validations.ts:97-98 | The accepted list holds only passing files of the input and every passing file; it is the whole input iff all pass |
| Attachments.ValidIff | src/app/lib/validations.ts:101-107 | The policy accepts a list iff every file passes and the sizes of all files add up to at most 20 MiB |
| Attachments.ThreeNineMiBFiles | src/app/lib/validations.ts:101-104 | Three 9 MiB PDFs each pass alone, and together they draw exactly one error, the aggregate one |
| Validation.ParseNumeroAsociado | src/app/lib/validations.ts:11-15 | Accepted iff a non-empty all-digit string; the value is the input unchanged; a refusal carries an issue |
| Validation.ParseCedula | src/app/lib/validations.ts:18-22 | Accepted iff a non-empty all-digit string; the value is the input unchanged |
| Validation.HyphenatedCedulaRejected | src/app/lib/validations.ts:18-22 | "3-0102-0999" is refused, and so is the whole submission |
| Validation.ParseNombreCompleto | src/app/lib/validations.ts:25-29 | Accepted iff the raw length is in [3, 100]; the value is the trimmed input, no longer than the raw one |
| Validation.TrimmedNameMayBeShort | src/app/lib/validations.ts:25-29 | The bound applies before trimming: " Al " is accepted as "Al" |
| Validation.ParseCorreo | src/app/lib/validations.ts:32-36 | Accepted iff non-empty and the e-mail check holds; the value is the lower-cased, trimmed input |
| Validation.ParseTelefono | src/app/lib/validations.ts:39-42 | A missing value or any string is accepted. A present phone is the input's digits in order. It is absent only when the input was missing or held no digit |
| Validation.ParseParticipa | src/app/lib/validations.ts:45-49 | Accepted iff exactly 'si' or 'no', and read as Si iff 'si' |
| Validation.ParseRepresenta | src/app/lib/validations.ts:52-54 | Accepted iff missing, 'si' or 'no'; absent iff missing |
| Validation.ValidateSubmission | src/app/lib/validations.ts:144-164 | The schema accepts iff every field rule accepts and the cross-field rule holds. The record then holds each field's normalised value: the member number and cédula unchanged, the trimmed name, the lower-cased and trimmed address, the phone's digits or no phone when there are none, the si/no answers as given, and the files. A refusal carries at least one issue |
| Validation.RepresentationOnlyRequiredForSi | src/app/lib/validations.ts:152-164 | Without a representation answer, 'si' is refused; 'no' is accepted exactly when it would be with the answer 'no' |
| Validation.NullPhoneRejected | src/app/lib/validations.ts:39-42 | A `null` phone makes the schema refuse the submission |
| Validation.EmptyPhoneIsNoPhone | src/app/lib/validations.ts:39-42 | An empty phone string and a missing phone give the same schema result |
| Deadline.CutoffIsClosed | src/app/lib/validations.ts:118-122 | The gate is strict: the cutoff instant is closed and the millisecond before it is open |
| Deadline.GateClosesAtConfiguredInstant | src/app/types/index.ts:173 | The configured closing, 2025-11-06T01:00:00-06:00, closes the gate at 2025-11-06T07:00:00Z; the millisecond before is open |
| Deadline.ServerCutoff | src/app/actions/submit.ts:148 | The server's closing instant is `FORM_CLOSE_DATE` when set, and the configured constant otherwise |
| Deadline.SplitRemaining | src/app/actions/submit.ts:155-158 | Hours stay below 24 and minutes below 60; the parts add up to the difference rounded down to a whole minute |
| Deadline.SplitOfMillis | src/app/actions/submit.ts:155-158 | The split inverts the sum on normalised durations: any instant in the minute after `Millis(r)` splits back into `r` |
| Deadline.Count | src/app/actions/submit.ts:161-165 | A count is its number, a space and the unit, followed by an 's' iff the count exceeds one |
| Deadline.RemainingText | src/app/actions/submit.ts:160-166 | Days and hours when a day is left; else hours and minutes when an hour is left; else minutes alone |
| Deadline.ObtenerTiempoRestante | src/app/actions/submit.ts:143-183 | Open iff now is before the server's closing instant (`FORM_CLOSE_DATE` or the default); the remaining text is present iff open, and is the text of the split of the difference |
| Deadline.CheckAvailability | src/app/lib/utils.ts:59-89 | The client flag is open iff now is before the hard-coded closing instant. While open, the client text equals the server text with `FORM_CLOSE_DATE` unset. While closed, the previous text is kept |
| Deadline.ServerAgreesWithPageIff | src/app/actions/submit.ts:148 | The server's open flag agrees with the page's at every instant iff `FORM_CLOSE_DATE` is unset or names the page's closing instant |
| Formatting.CleanNumericValue | src/app/lib/utils.ts:128-130 | The result is all digits and no longer than the input |
| Formatting.CleanIdempotent | src/app/lib/utils.ts:128-130 | Cleaning twice equals cleaning once |
| Formatting.CleanFixedPointIff | src/app/lib/utils.ts:128-130 | Cleaning changes nothing iff the input is already all digits |
| Formatting.FormatCedula | src/app/lib/utils.ts:135-144 | With at least nine digits: 11 characters with hyphens at 1 and 6, cleaning back to the first nine digits; otherwise the digits alone |
| Formatting.FormatCedulaIdempotent | src/app/lib/utils.ts:135-144 | Formatting a formatted cédula changes nothing |
| Formatting.FormatPhone | src/app/lib/utils.ts:149-158 | With at least eight digits: 9 characters with a hyphen at 4, cleaning back to the first eight digits; otherwise the digits alone |
| Formatting.FormatPhoneIdempotent | src/app/lib/utils.ts:149-158 | Formatting a formatted phone changes nothing |
| Formatting.GetFileType | src/app/lib/utils.ts:163-170 | pdf iff the extension is "pdf"; image iff it is jpg, jpeg or png; unknown otherwise |
| Formatting.KnownKindIsAllowed | src/app/lib/utils.ts:163-170 | Every name the picker shows as pdf or image passes the policy's extension test. A docx is shown as unknown but still passes it |
| Formatting.IsValidEmail | src/app/lib/utils.ts:120-123 | The automaton accepts exactly the strings of the pattern's shape: a plain local part, '@', and a plain domain with an inner dot |
| Formatting.ValidEmailHasOneAt | src/app/lib/utils.ts:120-123 | An accepted address has no white space and exactly one '@' |
| FormState.Apply | src/app/lib/utils.ts:12-34 | Each setter names the status it sets, carries only its own argument, and leaves a coherent state |
| FormState.LastSetterWins | src/app/lib/utils.ts:7-47 | After any non-empty sequence of setter calls only the last one matters |
| FormState.ReachableCoherent | src/app/lib/utils.ts:36-42 | Every reachable state shows at most one of the message and the error, each only in its own status |
| Upload.ProcessFiles | src/app/components/FileUpload.tsx:46-60 | The current list plus the new files is adopted in full iff every file passes and the sum is at most 20 MiB. Otherwise nothing is handed on, the list stays, and the joined errors are shown |
| Upload.HandleFileSelect | src/app/components/FileUpload.tsx:63-72 | An empty selection does nothing; otherwise the files are processed |
| Upload.HandleDrop | src/app/components/FileUpload.tsx:87-97 | A drop while disabled, or an empty drop, does nothing |
| Upload.WithoutIndex | src/app/components/FileUpload.tsx:101 | The filter removes exactly position i, and changes nothing when i is out of range |
| Upload.RemoveFile | src/app/components/FileUpload.tsx:100-104 | The list without position i is handed on without re-checking, and the error is cleared |
| Upload.RemovalKeepsValid | src/app/components/FileUpload.tsx:100-104 | Removing a file from a list that satisfies the policy leaves one that does |
| Upload.EventsKeepConsistency | src/app/components/FileUpload.tsx:46-104 | Every event keeps the picker's list within the policy |
| Upload.TotalSize | src/app/components/FileUpload.tsx:114 | The displayed total is the policy's size sum, so a consistent list never shows more than 20 MiB |
| Email.OrDefault | src/app/lib/email.ts:134-135 | `v \|\| fallback` falls back on an unset or empty variable |
| Email.AdminRecipients | src/app/lib/email.ts:137 | Unset gives no recipients; otherwise one trimmed, comma-free entry per comma-separated piece |
| Email.RecipientsOfList | src/app/lib/email.ts:137 | A variable of comma-separated addresses without white space yields exactly those addresses |
| Email.ParticipationLabel | src/app/lib/email.ts:39 | The participation label is 'SÍ participará' iff the answer is si |
| Email.RepresentationLabel | src/app/lib/email.ts:40-42 | 'No aplica' iff no answer; the si and no labels iff those answers |
| Email.RoundKB | src/app/lib/email.ts:64 | `Math.round(size / 1024)`: the nearest whole KiB, halves rounded up |
| Email.AttachmentsOf | src/app/lib/email.ts:111-123 | One attachment per file, same order, same name and content type |
| Email.FileLines | src/app/lib/email.ts:63-65 | Line k names the k-th attachment, numbered from 1, with its size in KiB |
| Email.AdminBodyListsFiles | src/app/lib/email.ts:38-71 | The trimmed administrator body contains the file count and the whole numbered list, whatever the date stamp |
| Email.AdminMail | src/app/lib/email.ts:128-145 | Subject is the cédula; recipients are the admin list; one attachment per file, in order; sender and reply-to fall back as configured |
| Email.AdminMailListsFiles | src/app/lib/email.ts:139 | The text of the administrator message lists every attachment |
| Email.ConfirmationSubject | src/app/lib/email.ts:159 | The subject is the fixed prefix followed by the cédula, which can be read back from it |
| Email.ConfirmationMail | src/app/lib/email.ts:150-165 | Sent to the member's address only, with the confirmation subject and no attachments |
| Email.SubjectsAgree | src/app/lib/email.ts:138-159 | Both subjects name the same cédula |
| Email.ErrorNoticeMail | src/app/lib/email.ts:170-206 | Sent to the admin list with the fixed subject, no attachments, and its own fallback sender name |
| Submit.Get | src/app/actions/submit.ts:31-38 | `formData.get` is missing iff no entry has the key |
| Submit.GetFirst | src/app/actions/submit.ts:31-38 | What `get` returns is the entry at the first position holding the key |
| Submit.ExtractFiles | src/app/actions/submit.ts:20-27 | Only files with a positive size are kept, and never more than were posted |
| Submit.ExtractFilesAppend | src/app/actions/submit.ts:20-27 | Extraction is an order-preserving filter: it distributes over concatenation |
| Submit.ReadFieldsAsWritten | src/app/actions/submit.ts:30-40 | A missing phone or representation entry reaches the schema as `null` |
| Submit.ReadFields | src/app/actions/submit.ts:30-40 | Corrected reading: a missing entry is an unanswered field |
| Submit.OmittedPhoneRejectedAsWritten | src/app/actions/submit.ts:36 | As written, every form without a phone entry is refused |
| Submit.OmittedPhoneIsEmptyPhone | src/app/actions/submit.ts:36 | As corrected, omitting the phone and sending it empty give the same schema result |
| Submit.PhoneReading | src/app/actions/submit.ts:30-40 | Under either reading, adding a phone entry to a form without one changes only the phone as read |
| Submit.AcceptedAsWrittenReadsAlike | src/app/actions/submit.ts:30-40 | On every form the schema accepts as written, the two readings agree |
| Submit.SendErrors | src/app/actions/submit.ts:104 | The failed sends are listed in order, administrator first, joined with ", " |
| Submit.SendFailure | src/app/actions/submit.ts:112-117 | A failure record without redirect that carries the joined send errors as details |
| Submit.Decide | src/app/actions/submit.ts:93-118 | Success iff the administrator mail went out, then with redirect '/enviado'; otherwise no redirect and the send errors as details |
| Submit.SendStage | src/app/actions/submit.ts:74-118 | The administrator mail first, then the confirmation whatever the first result was. The notice is third and only after an administrator failure. The response is the decision |
| Submit.AfterGate | src/app/actions/submit.ts:43-66 | A schema failure ends the trace after reading and validating the fields, an attachment failure after all four checks, each with its own message and no send; otherwise the sends follow the checks |
| Submit.AfterGateOrder | src/app/actions/submit.ts:43-66 | Once the schema accepts, the trace is the four checks followed only by sends |
| Submit.ProcesarFormulario | src/app/actions/submit.ts:12-131 | As written. A closed form gets the system-error record and nothing is sent. A schema refusal gets 'Error de validación' with the joined issues. An attachment refusal gets 'Error en archivos adjuntos' with the joined file errors. Nothing is sent unless the gate, the schema and the attachments all pass. Then the sends are those of the send stage, and the response is the decision on the send results: success with redirect '/enviado' iff the administrator mail went out, otherwise the send errors, administrator first. A form without a phone entry never reaches the sends |
| Submit.ProcessFields | src/app/actions/submit.ts:12-131 | From the gate on, given the fields as read. A closed form stops at the gate, with nothing read or validated, and gets 'Error del sistema' with the redirect error's message as details, no success and no redirect. A schema refusal gets 'Error de validación' with the joined issues. An attachment refusal gets 'Error en archivos adjuntos' with the joined file errors. Nothing is sent without all checks passing. When they pass, the sends are the send stage's and the response is the decision on the send results. Success iff the checks pass and the administrator mail went out |
| Submit.ChecksComeFirst | src/app/actions/submit.ts:12-66 | With the gate open: a schema refusal ends the trace after the fields are read and validated; once the schema accepts, every send comes after the four checks |
| Submit.ProcesarFormularioCorrected | src/app/actions/submit.ts:12-131 | The same guarantees as the action as written, over the corrected reading: the gate record, the two refusal records, no send without the checks, and the decision on the send results |
| Submit.CorrectionKeepsAcceptedForms | src/app/actions/submit.ts:30-55 | On every form that passes the checks as written, the corrected action gives the same outcome, sends included |
| Submit.OmittedPhoneFailsChecks | src/app/actions/submit.ts:36 | As written, a form without a phone entry never passes the checks before the sends |
| Submit.NoticeResultIrrelevant | src/app/actions/submit.ts:106-110 | The result of the error notice never changes the response |
| Submit.ConfirmationDoesNotDecide | src/app/actions/submit.ts:84-101 | The confirmation result never changes whether the outcome is a success |
| Submit.EndToEndExample | src/app/actions/submit.ts:12-101 | As written, a complete open form with a phone and no files, with the administrator mail delivered, ends in success with the redirect |
| Submit.OmittedPhoneExample | src/app/actions/submit.ts:30-55 | The same form without its phone entry: the action as written refuses it and sends nothing, and the corrected action accepts it with the redirect |

## Left out

- React rendering, event plumbing, `useState`/`useEffect`, the one-minute `setInterval` and the drag-over highlight. Each hook is modelled as pure transitions instead.
- `formatFileSize`, `totalSizeMB` and `tamaañoTotalMB`: floating point and logarithms. `ValidateFiles` returns the byte total only.
- `generateId` (randomness) and `useDebounce` (timers).
- `getFileIcon` and `openFileSelector`: display only.
- The `fechaEnvio` field of the server schema: a second clock-dependent check, which the gate already covers.
- `verificarFormularioAbierto`: it only returns the gate, `Deadline.IsOpen`.
- `formatearErroresValidacion` and `validarCampo`: helpers for displaying the schema library's errors.
- The schema library's issue wording, count and order. Each rule reports at least one issue, and two placeholder texts stand for the library's own messages.
- `correoElectronicoSecundario`: not part of the schema, which drops it.
- Nodemailer, the SMTP transport, `validarConfiguracionSMTP` and `testearConexionSMTP`. Each send is a boolean result.
- The `api/submit` route: stale, and not used by the form.
- File contents and `arrayBuffer`: an attachment is its name and content type.
- `new Date()`, `toLocaleString` and time zones. Instants are parameters, the date stamp in each body is a string parameter, and the localised closing date of `obtenerTiempoRestante` is not returned.
- Deadline.ServerCutoff: parsing of the `FORM_CLOSE_DATE` date string is not modelled. The variable is given as the instant it denotes, or none when unset or empty.
- Text.Lower: lower-cases ASCII letters only. The strings it meets in the policy are compared with ASCII extensions, but a non-ASCII e-mail address would be lower-cased differently.
- JavaScript measures string length in UTF-16 code units, while the model counts characters. The two differ only outside the Basic Multilingual Plane, which affects the name-length bound.
- Email.ConfirmationMail and Email.ErrorNoticeMail: the bodies stay symbolic (`Email.Body`), and `Email.Render` gives their text. Only the administrator body carries a proved property.
- Submit.IssuesText: the joined issue text is modelled, but the content of each issue is the library's, as noted above.

## Findings

| source | as written | input that shows it | evidently intended | confidence | as-written member | corrected member |
|---|---|---|---|---|---|---|
| src/app/actions/submit.ts:36-38 with src/app/lib/validations.ts:39-42,52-54 | `formData.get` returns `null` for a key that was not posted, and `null` reaches the schema. `.optional()` admits a missing value but not `null`, so the field is refused. The page never posts an undefined field (src/app/page.tsx:68-72), so a member who leaves the phone empty is always refused, and so is a 'no' without a representation answer | a complete form with no `telefonoCelular` entry | an absent entry is an unanswered optional field | medium; not executed | Submit.OmittedPhoneRejectedAsWritten | Submit.OmittedPhoneIsEmptyPhone |
