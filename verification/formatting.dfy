/**
 * The string helpers of the utilities file: digit cleaning, the visual
 * cédula and phone formats, file-type detection by extension, and the
 * client-side email pattern `^[^\s@]+@[^\s@]+\.[^\s@]+$` written as a
 * finite automaton.
 */
module Formatting {
  import opened Text
  import Attachments

  /** `cleanNumericValue`: `value.replace(/\D/g, '')`. */
  function CleanNumericValue(value: string): (r: string)
    ensures AllDigits(r)
    ensures |r| <= |value|
  {
    Digits(value)
  }

  /** Cleaning is idempotent. */
  lemma CleanIdempotent(value: string)
    ensures CleanNumericValue(CleanNumericValue(value)) == CleanNumericValue(value)
  {
    DigitsOfAllDigits(Digits(value));
  }

  /** Cleaning changes nothing exactly when the input is already all digits. */
  lemma CleanFixedPointIff(value: string)
    ensures CleanNumericValue(value) == value <==> AllDigits(value)
  {
    if AllDigits(value) {
      DigitsOfAllDigits(value);
    }
  }

  /** A hyphen between two pieces disappears when cleaning. */
  lemma CleanAcrossHyphen(x: string, y: string)
    ensures Digits(x + "-" + y) == Digits(x) + Digits(y)
  {
    DigitsAppend(x + "-", y);
    DigitsAppend(x, "-");
    assert Digits("-") == [];
  }

  /**
   * `formatCedula`: with at least nine digits, `d-dddd-dddd` from the first
   * nine (later digits are dropped); otherwise the digits alone. Cleaning
   * the formatted text gives back the nine digits it was built from.
   */
  function FormatCedula(cedula: string): (r: string)
    ensures var c := CleanNumericValue(cedula);
            |c| >= 9 ==> |r| == 11 && r[1] == '-' && r[6] == '-' && CleanNumericValue(r) == c[..9]
    ensures var c := CleanNumericValue(cedula); |c| < 9 ==> r == c
  {
    var c := CleanNumericValue(cedula);
    if |c| >= 9 then
      CedulaPieces(c);
      c[..1] + "-" + c[1..5] + "-" + c[5..9]
    else
      c
  }

  /** The three digit groups of a cédula, hyphenated, clean back to its first nine digits. */
  lemma CedulaPieces(c: string)
    requires AllDigits(c) && |c| >= 9
    ensures var r := c[..1] + "-" + c[1..5] + "-" + c[5..9];
            |r| == 11 && r[1] == '-' && r[6] == '-' && Digits(r) == c[..9]
  {
    var a, b, d := c[..1], c[1..5], c[5..9];
    HyphenatedDigits(a, b, d);
    assert a + b + d == c[..9];
  }

  /** Digit groups joined with hyphens clean back to the groups run together. */
  lemma HyphenatedDigits(a: string, b: string, d: string)
    requires AllDigits(a) && AllDigits(b) && AllDigits(d)
    ensures Digits(a + "-" + b + "-" + d) == a + b + d
  {
    DigitsOfAllDigits(a);
    DigitsOfAllDigits(b);
    DigitsOfAllDigits(d);
    CleanAcrossHyphen(a, b);
    CleanAcrossHyphen(a + "-" + b, d);
  }

  /** Formatting a formatted cédula changes nothing. */
  lemma FormatCedulaIdempotent(cedula: string)
    ensures FormatCedula(FormatCedula(cedula)) == FormatCedula(cedula)
  {
    var c := CleanNumericValue(cedula);
    if |c| < 9 {
      CleanIdempotent(cedula);
    } else {
      var r := FormatCedula(cedula);
      var c9 := c[..9];
      assert CleanNumericValue(r) == c9;
      assert c9[..1] == c[..1] && c9[1..5] == c[1..5] && c9[5..9] == c[5..9];
    }
  }

  /**
   * `formatPhone`: with at least eight digits, `dddd-dddd` from the first
   * eight; otherwise the digits alone.
   */
  function FormatPhone(phone: string): (r: string)
    ensures var c := CleanNumericValue(phone);
            |c| >= 8 ==> |r| == 9 && r[4] == '-' && CleanNumericValue(r) == c[..8]
    ensures var c := CleanNumericValue(phone); |c| < 8 ==> r == c
  {
    var c := CleanNumericValue(phone);
    if |c| >= 8 then
      var a, b := c[..4], c[4..8];
      DigitsOfAllDigits(a);
      DigitsOfAllDigits(b);
      CleanAcrossHyphen(a, b);
      assert a + b == c[..8];
      a + "-" + b
    else
      c
  }

  /** Formatting a formatted phone number changes nothing. */
  lemma FormatPhoneIdempotent(phone: string)
    ensures FormatPhone(FormatPhone(phone)) == FormatPhone(phone)
  {
    var c := CleanNumericValue(phone);
    if |c| < 8 {
      CleanIdempotent(phone);
    } else {
      var c8 := c[..8];
      assert c8[..4] == c[..4] && c8[4..8] == c[4..8];
    }
  }

  datatype FileKind = Pdf | Image | Unknown

  /**
   * `getFileType`: the kind named by the lower-cased text after the last
   * dot, which is the same extension the attachment validator reads.
   */
  function GetFileType(filename: string): (k: FileKind)
    ensures k == Pdf <==> Attachments.Extension(filename) == "pdf"
    ensures k == Image <==> Attachments.Extension(filename) in ["jpg", "jpeg", "png"]
  {
    var extension := Last(Split(Lower(filename), '.'));
    LastPieceOfSplit(Lower(filename), '.');
    if extension == "pdf" then Pdf
    else if extension in ["jpg", "jpeg", "png"] then Image
    else Unknown
  }

  /**
   * Every file the helper recognises has an extension the attachment policy
   * accepts; the converse fails for `docx`, which the policy accepts and the
   * helper calls unknown.
   */
  lemma KnownKindIsAllowed(filename: string)
    ensures GetFileType(filename) != Unknown ==> Attachments.ExtensionAllowed(filename)
    ensures Attachments.Extension(filename) == "docx" ==>
              GetFileType(filename) == Unknown && Attachments.ExtensionAllowed(filename)
  {
    Attachments.ExtensionAllowedIff(filename);
  }

  /** A character the classes `[^\s@]` of the email pattern accept. */
  predicate Plain(c: char) {
    !IsSpace(c) && c != '@'
  }

  predicate AllPlain(s: string) {
    forall i :: 0 <= i < |s| ==> Plain(s[i])
  }

  /** A dot that is neither the first nor the last character. */
  predicate InnerDot(d: string) {
    exists q :: 1 <= q < |d| - 1 && d[q] == '.'
  }

  /** A dot before the last character (possibly the first). */
  predicate DotBeforeLast(d: string) {
    exists q :: 0 <= q < |d| - 1 && d[q] == '.'
  }

  /**
   * What the email pattern describes: a non-empty local part, one '@', and a
   * domain with an inner dot, none of them holding white space or a second '@'.
   */
  predicate EmailShape(s: string) {
    exists p :: 0 < p < |s| && s[p] == '@' && AllPlain(s[..p]) && AllPlain(s[p + 1..]) && InnerDot(s[p + 1..])
  }

  /** States of the automaton that recognises the pattern. */
  datatype EmailState =
    | Start     // nothing read
    | Local     // a non-empty local part read
    | Domain0   // '@' read, domain empty
    | Domain1   // a non-empty domain read, no usable dot yet
    | Dot       // a dot after the first domain character, nothing after it yet
    | Accept    // a usable dot followed by at least one character
    | Reject

  function Step(q: EmailState, c: char): EmailState {
    match q
    case Start => if Plain(c) then Local else Reject
    case Local => if c == '@' then Domain0 else if Plain(c) then Local else Reject
    case Domain0 => if Plain(c) then Domain1 else Reject
    case Domain1 => if c == '.' then Dot else if Plain(c) then Domain1 else Reject
    case Dot => if Plain(c) then Accept else Reject
    case Accept => if Plain(c) then Accept else Reject
    case Reject => Reject
  }

  function Run(q: EmailState, s: string): EmailState
    decreases |s|
  {
    if s == [] then q else Run(Step(q, s[0]), s[1..])
  }

  lemma {:induction false} RejectIsFinal(s: string)
    ensures Run(Reject, s) == Reject
    decreases |s|
  {
    if s != [] {
      RejectIsFinal(s[1..]);
    }
  }

  lemma {:induction false} AcceptRun(s: string)
    ensures Run(Accept, s) == Accept <==> AllPlain(s)
    decreases |s|
  {
    if s != [] {
      if Plain(s[0]) {
        AcceptRun(s[1..]);
        AllPlainTail(s);
      } else {
        RejectIsFinal(s[1..]);
      }
    }
  }

  lemma {:induction false} DotRun(s: string)
    ensures Run(Dot, s) == Accept <==> s != [] && AllPlain(s)
  {
    if s != [] {
      if Plain(s[0]) {
        AcceptRun(s[1..]);
        AllPlainTail(s);
      } else {
        RejectIsFinal(s[1..]);
      }
    }
  }

  /** Moving past a first character that is not a dot keeps the dots of the rest. */
  lemma DotBeforeLastTail(s: string)
    requires s != [] && s[0] != '.'
    ensures DotBeforeLast(s) <==> DotBeforeLast(s[1..])
  {
    if DotBeforeLast(s) {
      var q :| 0 <= q < |s| - 1 && s[q] == '.';
      assert s[1..][q - 1] == '.';
    }
    if DotBeforeLast(s[1..]) {
      var q :| 0 <= q < |s[1..]| - 1 && s[1..][q] == '.';
      assert s[q + 1] == '.';
    }
  }

  lemma AllPlainTail(s: string)
    requires s != []
    ensures AllPlain(s) <==> Plain(s[0]) && AllPlain(s[1..])
  {
    if Plain(s[0]) && AllPlain(s[1..]) {
      forall i | 0 < i < |s|
        ensures Plain(s[i])
      {
        assert s[i] == s[1..][i - 1];
      }
    }
  }

  lemma {:induction false} Domain1Run(s: string)
    ensures Run(Domain1, s) == Accept <==> AllPlain(s) && DotBeforeLast(s)
    decreases |s|
  {
    if s != [] {
      AllPlainTail(s);
      if s[0] == '.' {
        DotRun(s[1..]);
        if |s| >= 2 {
          assert s[0] == '.';
        }
      } else if Plain(s[0]) {
        Domain1Run(s[1..]);
        DotBeforeLastTail(s);
      } else {
        RejectIsFinal(s[1..]);
      }
    }
  }

  lemma {:induction false} Domain0Run(s: string)
    ensures Run(Domain0, s) == Accept <==> AllPlain(s) && InnerDot(s)
  {
    if s != [] {
      AllPlainTail(s);
      if Plain(s[0]) {
        Domain1Run(s[1..]);
        if InnerDot(s) {
          var q :| 1 <= q < |s| - 1 && s[q] == '.';
          assert s[1..][q - 1] == '.';
        }
        if DotBeforeLast(s[1..]) {
          var q :| 0 <= q < |s[1..]| - 1 && s[1..][q] == '.';
          assert s[q + 1] == '.';
        }
      } else {
        RejectIsFinal(s[1..]);
      }
    }
  }

  /** An '@' split point of a string already past a non-empty local part. */
  predicate AtSplit(s: string, p: int) {
    0 <= p < |s| && s[p] == '@' && AllPlain(s[..p]) && AllPlain(s[p + 1..]) && InnerDot(s[p + 1..])
  }

  lemma {:induction false} LocalRun(s: string)
    ensures Run(Local, s) == Accept <==> exists p :: AtSplit(s, p)
    decreases |s|
  {
    if s != [] {
      var c := s[0];
      if c == '@' {
        Domain0Run(s[1..]);
        if Run(Local, s) == Accept {
          assert s[..0] == [];
          assert AtSplit(s, 0);
        }
      } else if Plain(c) {
        LocalRun(s[1..]);
        if p :| AtSplit(s[1..], p) {
          SplitShiftsRight(s, p);
        }
        if p :| AtSplit(s, p) {
          SplitShiftsLeft(s, p);
        }
      } else {
        RejectIsFinal(s[1..]);
      }
    }
  }

  /** A split point of the rest is one of the whole string, one further on, when the first character is plain. */
  lemma SplitShiftsRight(s: string, p: int)
    requires s != [] && Plain(s[0]) && AtSplit(s[1..], p)
    ensures AtSplit(s, p + 1)
  {
    assert s[..p + 1] == [s[0]] + s[1..][..p];
    AllPlainTail(s[..p + 1]);
    assert s[p + 1 + 1..] == s[1..][p + 1..];
  }

  /** A split point past the first character is one of the rest, one earlier. */
  lemma SplitShiftsLeft(s: string, p: int)
    requires AtSplit(s, p) && p > 0
    ensures AtSplit(s[1..], p - 1)
  {
    assert s[1..][..p - 1] == s[1..p];
    AllPlainTail(s[..p]);
    assert s[..p][1..] == s[1..p];
    assert s[1..][p - 1 + 1..] == s[p + 1..];
  }

  /**
   * `isValidEmail`: the automaton accepts exactly the strings of the
   * pattern's shape.
   */
  function IsValidEmail(email: string): (ok: bool)
    ensures ok <==> EmailShape(email)
  {
    StartRun(email);
    Run(Start, email) == Accept
  }

  lemma {:induction false} StartRun(s: string)
    ensures Run(Start, s) == Accept <==> EmailShape(s)
  {
    if s != [] {
      if Plain(s[0]) {
        LocalRun(s[1..]);
        if p :| AtSplit(s[1..], p) {
          SplitShiftsRight(s, p);
        }
        if EmailShape(s) {
          var p :| 0 < p < |s| && s[p] == '@' && AllPlain(s[..p]) && AllPlain(s[p + 1..]) && InnerDot(s[p + 1..]);
          SplitShiftsLeft(s, p);
        }
      } else {
        RejectIsFinal(s[1..]);
      }
    }
  }

  /** An accepted address has no white space and exactly one '@'. */
  lemma ValidEmailHasOneAt(email: string)
    requires IsValidEmail(email)
    ensures NoSpace(email)
    ensures exists p :: 0 < p < |email| && email[p] == '@' &&
                        forall i :: 0 <= i < |email| && email[i] == '@' ==> i == p
  {
    var p :| 0 < p < |email| && email[p] == '@' && AllPlain(email[..p]) && AllPlain(email[p + 1..]) && InnerDot(email[p + 1..]);
    forall i | 0 <= i < |email|
      ensures !IsSpace(email[i]) && (email[i] == '@' ==> i == p)
    {
      if i < p {
        assert email[i] == email[..p][i];
      } else if i > p {
        assert email[i] == email[p + 1..][i - p - 1];
      }
    }
  }
}
