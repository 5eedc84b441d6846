/**
 * The submission schema: per-field accept/normalise rules and the cross-field
 * rule on `representaraOtros`. The e-mail syntax check of the schema library
 * is a parameter `isEmail`; the model does not interpret it.
 */
module Validation {
  import opened Wrappers
  import opened Text
  import opened Attachments

  /** What a schema field receives: `undefined`, `null`, a string, or another object (a `File`). */
  datatype Value = Undefined | Null | Str(s: string) | Other

  datatype YesNo = Si | No

  /** One schema issue: the field path and its message. */
  datatype Issue = Issue(path: string, message: string)

  /** The outcome of parsing: the normalised value, or the issues found. */
  datatype Parsed<T> = Accepted(value: T) | Rejected(issues: seq<Issue>)

  function IssuesOf<T>(p: Parsed<T>): seq<Issue> {
    if p.Rejected? then p.issues else []
  }

  const RequiredField := "Este campo es obligatorio"
  const InvalidEmail := "Ingrese un correo electrónico válido"
  const InvalidCedula := "La cédula debe contener solo números"
  const InvalidNumeroAsociado := "El número de asociado debe contener solo números"
  const NameTooShort := "El nombre debe tener al menos 3 caracteres"
  const NameTooLong := "El nombre no puede exceder 100 caracteres"
  const InvalidOption := "Debe seleccionar una opción válida"
  const RepresentationRequired := "Debe indicar si representará a otros asociados"
  /** Stand-ins for the schema library's own wording, which the model does not reproduce. */
  const WrongType := "Invalid input"
  const InvalidEnumValue := "Invalid enum value"

  function When(failed: bool, path: string, message: string): seq<Issue> {
    if failed then [Issue(path, message)] else []
  }

  /** The regular expression `^\d+$`. */
  predicate DigitString(s: string) {
    s != "" && AllDigits(s)
  }

  /** `numeroAsociado`: non-empty, digits only, then trimmed (which changes nothing). */
  function ParseNumeroAsociado(v: Value): (r: Parsed<string>)
    ensures r.Accepted? <==> v.Str? && DigitString(v.s)
    ensures r.Accepted? ==> r.value == v.s
    ensures r.Rejected? ==> r.issues != []
  {
    match v
    case Str(s) =>
      var issues := When(|s| < 1, "numeroAsociado", RequiredField)
                    + When(!DigitString(s), "numeroAsociado", InvalidNumeroAsociado);
      if issues == [] then
        TrimDigits(s);
        Accepted(Trim(s))
      else Rejected(issues)
    case _ => Rejected([Issue("numeroAsociado", WrongType)])
  }

  /**
   * `cedula`: non-empty, digits only, then stripped of non-digits. The digits
   * check runs first, so the strip never has anything to remove.
   */
  function ParseCedula(v: Value): (r: Parsed<string>)
    ensures r.Accepted? <==> v.Str? && DigitString(v.s)
    ensures r.Accepted? ==> r.value == v.s
    ensures r.Rejected? ==> r.issues != []
  {
    match v
    case Str(s) =>
      var issues := When(|s| < 1, "cedula", RequiredField)
                    + When(!DigitString(s), "cedula", InvalidCedula);
      if issues == [] then
        DigitsOfAllDigits(s);
        Accepted(Digits(s))
      else Rejected(issues)
    case _ => Rejected([Issue("cedula", WrongType)])
  }

  /** `nombreCompleto`: the length bound is checked on the raw string, then it is trimmed. */
  function ParseNombreCompleto(v: Value): (r: Parsed<string>)
    ensures r.Accepted? <==> v.Str? && 3 <= |v.s| <= 100
    ensures r.Accepted? ==> r.value == Trim(v.s) && |r.value| <= |v.s| <= 100
    ensures r.Rejected? ==> r.issues != []
  {
    match v
    case Str(s) =>
      var issues := When(|s| < 3, "nombreCompleto", NameTooShort)
                    + When(|s| > 100, "nombreCompleto", NameTooLong);
      if issues == [] then Accepted(Trim(s)) else Rejected(issues)
    case _ => Rejected([Issue("nombreCompleto", WrongType)])
  }

  /** `correoElectronico`: non-empty and an e-mail address, then lower-cased and trimmed. */
  function ParseCorreo(v: Value, isEmail: string -> bool): (r: Parsed<string>)
    ensures r.Accepted? <==> v.Str? && v.s != "" && isEmail(v.s)
    ensures r.Accepted? ==> r.value == Trim(Lower(v.s))
    ensures r.Rejected? ==> r.issues != []
  {
    match v
    case Str(s) =>
      var issues := When(|s| < 1, "correoElectronico", RequiredField)
                    + When(!isEmail(s), "correoElectronico", InvalidEmail);
      if issues == [] then Accepted(Trim(Lower(s))) else Rejected(issues)
    case _ => Rejected([Issue("correoElectronico", WrongType)])
  }

  /**
   * `telefonoCelular`: optional; a string is reduced to its digits, and an
   * empty result becomes absent.
   */
  function ParseTelefono(v: Value): (r: Parsed<Option<string>>)
    ensures r.Accepted? <==> v.Undefined? || v.Str?
    ensures r.Accepted? && r.value.Some? ==>
              v.Str? && r.value.value == Digits(v.s) && DigitString(r.value.value)
    ensures r.Accepted? && r.value.None? ==>
              v.Undefined? || (v.Str? && Digits(v.s) == "" && forall i :: 0 <= i < |v.s| ==> !IsDigit(v.s[i]))
    ensures r.Rejected? ==> r.issues != []
  {
    match v
    case Undefined => Accepted(None)
    case Str(s) =>
      var d := Digits(s);
      DigitsEmpty(s);
      Accepted(if d == "" then None else Some(d))
    case _ => Rejected([Issue("telefonoCelular", WrongType)])
  }

  /** `participaraAsamblea`: required, exactly 'si' or 'no'. */
  function ParseParticipa(v: Value): (r: Parsed<YesNo>)
    ensures r.Accepted? <==> v == Str("si") || v == Str("no")
    ensures r.Accepted? ==> (r.value == Si <==> v == Str("si"))
    ensures r.Rejected? ==> r.issues != []
  {
    match v
    case Str(s) =>
      if s == "si" then Accepted(Si)
      else if s == "no" then Accepted(No)
      else Rejected([Issue("participaraAsamblea", InvalidEnumValue)])
    case Undefined => Rejected([Issue("participaraAsamblea", RequiredField)])
    case _ => Rejected([Issue("participaraAsamblea", InvalidOption)])
  }

  /** `representaraOtros`: optional, and when present exactly 'si' or 'no'. */
  function ParseRepresenta(v: Value): (r: Parsed<Option<YesNo>>)
    ensures r.Accepted? <==> v == Undefined || v == Str("si") || v == Str("no")
    ensures r.Accepted? ==> (r.value.None? <==> v == Undefined)
    ensures r.Accepted? ==> (r.value == Some(Si) <==> v == Str("si"))
    ensures r.Rejected? ==> r.issues != []
  {
    match v
    case Undefined => Accepted(None)
    case Str(s) =>
      if s == "si" then Accepted(Some(Si))
      else if s == "no" then Accepted(Some(No))
      else Rejected([Issue("representaraOtros", InvalidEnumValue)])
    case _ => Rejected([Issue("representaraOtros", WrongType)])
  }

  /** The cross-field rule: answering 'si' to participation requires the representation answer. */
  predicate RepresentationAnswered(participa: YesNo, representa: Option<YesNo>) {
    participa == Si ==> representa.Some?
  }

  /** The object handed to the schema. */
  datatype RawSubmission = RawSubmission(
    numeroAsociado: Value,
    cedula: Value,
    nombreCompleto: Value,
    correoElectronico: Value,
    telefonoCelular: Value,
    participaraAsamblea: Value,
    representaraOtros: Value,
    archivos: seq<File>)

  /** The validated, normalised record. */
  datatype Submission = Submission(
    numeroAsociado: string,
    cedula: string,
    nombreCompleto: string,
    correoElectronico: string,
    telefonoCelular: Option<string>,
    participaraAsamblea: YesNo,
    representaraOtros: Option<YesNo>,
    archivos: seq<File>)

  /** The acceptance condition of the whole schema, stated on the raw values. */
  predicate Acceptable(raw: RawSubmission, isEmail: string -> bool) {
    && raw.numeroAsociado.Str? && DigitString(raw.numeroAsociado.s)
    && raw.cedula.Str? && DigitString(raw.cedula.s)
    && raw.nombreCompleto.Str? && 3 <= |raw.nombreCompleto.s| <= 100
    && raw.correoElectronico.Str? && raw.correoElectronico.s != "" && isEmail(raw.correoElectronico.s)
    && (raw.telefonoCelular.Undefined? || raw.telefonoCelular.Str?)
    && (raw.participaraAsamblea == Str("si") || raw.participaraAsamblea == Str("no"))
    && (raw.representaraOtros == Undefined || raw.representaraOtros == Str("si") || raw.representaraOtros == Str("no"))
    && (raw.participaraAsamblea == Str("si") ==> raw.representaraOtros != Undefined)
  }

  /**
   * `FormularioSchemaCompleto` / `ServerFormularioSchema`: every field rule,
   * then the cross-field rule. On success the record holds the normalised
   * values; on failure at least one issue is reported.
   */
  function ValidateSubmission(raw: RawSubmission, isEmail: string -> bool): (r: Parsed<Submission>)
    ensures r.Accepted? <==> Acceptable(raw, isEmail)
    ensures r.Accepted? ==>
      && r.value.numeroAsociado == raw.numeroAsociado.s
      && r.value.cedula == raw.cedula.s
      && r.value.nombreCompleto == Trim(raw.nombreCompleto.s)
      && r.value.correoElectronico == Trim(Lower(raw.correoElectronico.s))
      && (r.value.participaraAsamblea == Si <==> raw.participaraAsamblea == Str("si"))
      && r.value.archivos == raw.archivos
    ensures r.Accepted? ==>
      r.value.telefonoCelular ==
        (if raw.telefonoCelular.Str? && Digits(raw.telefonoCelular.s) != "" then Some(Digits(raw.telefonoCelular.s)) else None)
    ensures r.Accepted? && r.value.telefonoCelular.Some? ==> DigitString(r.value.telefonoCelular.value)
    ensures r.Accepted? ==> (r.value.representaraOtros.None? <==> raw.representaraOtros == Undefined)
    ensures r.Accepted? ==> (r.value.representaraOtros == Some(Si) <==> raw.representaraOtros == Str("si"))
    ensures r.Rejected? ==> r.issues != []
  {
    var n := ParseNumeroAsociado(raw.numeroAsociado);
    var c := ParseCedula(raw.cedula);
    var nm := ParseNombreCompleto(raw.nombreCompleto);
    var e := ParseCorreo(raw.correoElectronico, isEmail);
    var t := ParseTelefono(raw.telefonoCelular);
    var p := ParseParticipa(raw.participaraAsamblea);
    var rep := ParseRepresenta(raw.representaraOtros);
    var issues := IssuesOf(n) + IssuesOf(c) + IssuesOf(nm) + IssuesOf(e)
                  + IssuesOf(t) + IssuesOf(p) + IssuesOf(rep);
    if issues != [] then Rejected(issues)
    else if !RepresentationAnswered(p.value, rep.value) then
      Rejected([Issue("representaraOtros", RepresentationRequired)])
    else
      Accepted(Submission(n.value, c.value, nm.value, e.value, t.value, p.value, rep.value, raw.archivos))
  }

  /** A `null` phone is refused: the optional field admits a missing value, not `null`. */
  lemma NullPhoneRejected(raw: RawSubmission, isEmail: string -> bool)
    requires raw.telefonoCelular == Null
    ensures ValidateSubmission(raw, isEmail).Rejected?
  {
  }

  /** An empty phone string is read exactly as a phone left out: both give no phone and no issue. */
  lemma EmptyPhoneIsNoPhone(raw: RawSubmission, isEmail: string -> bool)
    requires raw.telefonoCelular == Undefined
    ensures ValidateSubmission(raw.(telefonoCelular := Str("")), isEmail) == ValidateSubmission(raw, isEmail)
  {
    assert Digits("") == "";
    assert ParseTelefono(Str("")) == ParseTelefono(Undefined);
  }

  /** A hyphenated cédula is refused, not normalised: the digits check precedes the strip. */
  lemma HyphenatedCedulaRejected(raw: RawSubmission, isEmail: string -> bool)
    requires raw.cedula == Str("3-0102-0999")
    ensures ParseCedula(raw.cedula).Rejected?
    ensures ValidateSubmission(raw, isEmail).Rejected?
  {
    assert !IsDigit(raw.cedula.s[1]);
  }

  /** The length bound applies before trimming, so a padded two-letter name is accepted as two letters. */
  lemma TrimmedNameMayBeShort()
    ensures ParseNombreCompleto(Str(" Al ")) == Accepted("Al")
  {
    var s := " Al ";
    assert IsSpace(s[0]) && !IsSpace('A') && !IsSpace('l') && IsSpace(s[3]);
    var t := s[1..];
    assert TrimStart(t) == t;
    assert TrimStart(s) == t;
    var u := t[..2];
    assert u == "Al";
    assert TrimEnd(u) == u;
    assert TrimEnd(t) == TrimEnd(u);
  }

  /** Representation may be left out after a 'no' but not after a 'si'. */
  lemma RepresentationOnlyRequiredForSi(raw: RawSubmission, isEmail: string -> bool)
    requires raw.representaraOtros == Undefined
    ensures raw.participaraAsamblea == Str("si") ==> ValidateSubmission(raw, isEmail).Rejected?
    ensures raw.participaraAsamblea == Str("no") ==>
              (ValidateSubmission(raw, isEmail).Accepted? <==>
               Acceptable(raw.(representaraOtros := Str("no")), isEmail))
  {
  }
}
