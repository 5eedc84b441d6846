/**
 * The attachment policy `validarArchivos`: each file is checked for size,
 * then for type or extension; the files that pass are summed and the sum is
 * checked against the aggregate limit.
 */
module Attachments {
  import opened Wrappers
  import opened Text

  /** A browser `File` as the policy sees it: name, byte size and declared MIME type. */
  datatype File = File(name: string, size: nat, mime: string)

  const MaxFileSizeMB: nat := 10
  const MaxTotalSizeMB: nat := 20
  const BytesPerMB: nat := 1024 * 1024
  const MaxFileBytes: nat := MaxFileSizeMB * BytesPerMB
  const MaxTotalBytes: nat := MaxTotalSizeMB * BytesPerMB

  const AllowedTypes: seq<string> := [
    "application/pdf",
    "image/jpeg",
    "image/png",
    "application/vnd.openxmlformats-officedocument.wordprocessingml.document"
  ]

  const AllowedExtensions: seq<string> := [".pdf", ".jpg", ".jpeg", ".png", ".docx"]

  /** `name.toLowerCase().split('.').pop()`: the lower-cased text after the last dot. */
  function Extension(name: string): string {
    LastSegment(Lower(name), '.')
  }

  /** The extension does not depend on letter case, so "INFORME.PDF" is read as a pdf. */
  lemma ExtensionIgnoresCase(name: string)
    ensures Extension(Lower(name)) == Extension(name)
  {
    LowerIdempotent(name);
  }

  /** The extension has no dot, is no longer than the name, and is the whole lower-cased name when it has no dot. */
  lemma ExtensionShape(name: string)
    ensures var e := Extension(name);
            '.' !in e && |e| <= |name| && ('.' !in name ==> e == Lower(name))
  {
    LastSegmentShape(Lower(name), '.');
    if '.' !in name {
      assert '.' !in Lower(name);
    }
  }

  /** `ALLOWED_TYPES.includes(file.type)` */
  predicate TypeAllowed(mime: string) {
    Includes(AllowedTypes, mime)
  }

  /** `extension && ALLOWED_EXTENSIONS.includes('.' + extension)` */
  predicate ExtensionAllowed(name: string) {
    var e := Extension(name);
    e != "" && Includes(AllowedExtensions, "." + e)
  }

  /** The type test accepts exactly the four listed MIME types. */
  lemma TypeAllowedIff(mime: string)
    ensures TypeAllowed(mime) <==> mime in AllowedTypes
  {
    IncludesIff(AllowedTypes, mime);
  }

  /** The extension test accepts exactly the five listed extensions, dot removed. */
  lemma ExtensionAllowedIff(name: string)
    ensures ExtensionAllowed(name) <==> Extension(name) in ["pdf", "jpg", "jpeg", "png", "docx"]
  {
    var e := Extension(name);
    IncludesIff(AllowedExtensions, "." + e);
    DotPrefixed(e, AllowedExtensions[0]);
    DotPrefixed(e, AllowedExtensions[1]);
    DotPrefixed(e, AllowedExtensions[2]);
    DotPrefixed(e, AllowedExtensions[3]);
    DotPrefixed(e, AllowedExtensions[4]);
    assert AllowedExtensions[0][1..] == "pdf";
    assert AllowedExtensions[1][1..] == "jpg";
    assert AllowedExtensions[2][1..] == "jpeg";
    assert AllowedExtensions[3][1..] == "png";
    assert AllowedExtensions[4][1..] == "docx";
  }

  /** Prefixing a dot matches a dotted entry exactly when the rest matches. */
  lemma DotPrefixed(e: string, entry: string)
    requires entry != [] && entry[0] == '.'
    ensures "." + e == entry <==> e == entry[1..]
  {
    if "." + e == entry {
      assert ("." + e)[1..] == e;
    }
    if e == entry[1..] {
      assert entry == [entry[0]] + entry[1..];
    }
  }

  /** The reason one file is refused. */
  datatype Problem = TooLarge | TypeNotAllowed

  /**
   * The individual checks for one file: the size test comes first, and the type
   * test (MIME type or extension) runs only when the size test passed.
   */
  function Verdict(f: File): (p: Option<Problem>)
    ensures p == Some(TooLarge) <==> f.size > MaxFileBytes
    ensures p == Some(TypeNotAllowed) <==>
              f.size <= MaxFileBytes && !TypeAllowed(f.mime) && !ExtensionAllowed(f.name)
    ensures p == None <==>
              f.size <= MaxFileBytes && (TypeAllowed(f.mime) || ExtensionAllowed(f.name))
  {
    if f.size > MaxFileBytes then Some(TooLarge)
    else if !TypeAllowed(f.mime) && !ExtensionAllowed(f.name) then Some(TypeNotAllowed)
    else None
  }

  predicate Passes(f: File) {
    Verdict(f).None?
  }

  /** An error of `validarArchivos`; `position` is the file's index plus one. */
  datatype FileError = Individual(position: nat, problem: Problem) | TotalTooLarge

  /** The accumulators of the `forEach` loop. */
  datatype ScanState = ScanState(errors: seq<FileError>, total: nat, accepted: seq<File>)

  /** One iteration of the loop, for the file at `index`. */
  function Visit(s: ScanState, f: File, index: nat): ScanState {
    match Verdict(f)
    case Some(p) => s.(errors := s.errors + [Individual(index + 1, p)])
    case None => s.(total := s.total + f.size, accepted := s.accepted + [f])
  }

  /** The loop over `archivos`, left to right, as the source runs it. */
  function Scan(files: seq<File>): (s: ScanState)
    ensures |s.errors| + |s.accepted| == |files|
    decreases |files|
  {
    if files == [] then ScanState([], 0, [])
    else Visit(Scan(files[..|files| - 1]), files[|files| - 1], |files| - 1)
  }

  // ----- Reference definitions: what the loop computes, stated declaratively.

  /** The files that pass their individual checks, in their original order. */
  function Passing(files: seq<File>): seq<File>
    decreases |files|
  {
    if files == [] then []
    else (if Passes(files[0]) then [files[0]] else []) + Passing(files[1..])
  }

  /** One error per failing file, tagged with its position counted from `offset + 1`. */
  function IndividualErrors(files: seq<File>, offset: nat): seq<FileError>
    decreases |files|
  {
    if files == [] then []
    else
      (match Verdict(files[0])
       case Some(p) => [Individual(offset + 1, p)]
       case None => [])
      + IndividualErrors(files[1..], offset + 1)
  }

  function SumSizes(files: seq<File>): nat
    decreases |files|
  {
    if files == [] then 0 else files[0].size + SumSizes(files[1..])
  }

  lemma {:induction false} PassingAppend(a: seq<File>, b: seq<File>)
    ensures Passing(a + b) == Passing(a) + Passing(b)
    decreases |a|
  {
    if a == [] {
      assert a + b == b;
    } else {
      assert (a + b)[0] == a[0];
      assert (a + b)[1..] == a[1..] + b;
      PassingAppend(a[1..], b);
    }
  }

  lemma {:induction false} IndividualErrorsAppend(a: seq<File>, b: seq<File>, offset: nat)
    ensures IndividualErrors(a + b, offset) == IndividualErrors(a, offset) + IndividualErrors(b, offset + |a|)
    decreases |a|
  {
    if a == [] {
      assert a + b == b;
    } else {
      assert (a + b)[0] == a[0];
      assert (a + b)[1..] == a[1..] + b;
      IndividualErrorsAppend(a[1..], b, offset + 1);
    }
  }

  lemma {:induction false} SumSizesAppend(a: seq<File>, b: seq<File>)
    ensures SumSizes(a + b) == SumSizes(a) + SumSizes(b)
    decreases |a|
  {
    if a == [] {
      assert a + b == b;
    } else {
      assert (a + b)[1..] == a[1..] + b;
      SumSizesAppend(a[1..], b);
    }
  }

  /** The single left-to-right pass computes exactly the reference definitions. */
  lemma {:induction false} ScanMatchesReference(files: seq<File>)
    ensures Scan(files) == ScanState(IndividualErrors(files, 0), SumSizes(Passing(files)), Passing(files))
    decreases |files|
  {
    if files == [] {
      assert Scan(files) == ScanState([], 0, []);
    } else {
      var init, last := files[..|files| - 1], files[|files| - 1];
      assert files == init + [last];
      assert Scan(files) == Visit(Scan(init), last, |init|);
      ScanMatchesReference(init);
      VisitOne(Scan(init), last, |init|);
      PassingAppend(init, [last]);
      IndividualErrorsAppend(init, [last], 0);
      SumSizesAppend(Passing(init), Passing([last]));
    }
  }

  /** One step of the loop appends the reference results for that one file. */
  lemma VisitOne(s: ScanState, f: File, index: nat)
    ensures Visit(s, f, index) ==
            ScanState(s.errors + IndividualErrors([f], index), s.total + SumSizes(Passing([f])), s.accepted + Passing([f]))
  {
    assert [f][1..] == [];
    assert IndividualErrors([f], index) == (match Verdict(f) case Some(p) => [Individual(index + 1, p)] case None => []);
    assert Passing([f]) == (if Passes(f) then [f] else []);
    assert SumSizes([f]) == f.size;
  }

  /** The record `validarArchivos` returns (the rounded megabyte figure is not modelled). */
  datatype FileValidation = FileValidation(valid: bool, errors: seq<FileError>, accepted: seq<File>, total: nat)

  /** `validarArchivos` */
  function ValidateFiles(files: seq<File>): (v: FileValidation)
    ensures v.accepted == Passing(files)
    ensures v.total == SumSizes(v.accepted)
    ensures v.errors == IndividualErrors(files, 0) + (if v.total > MaxTotalBytes then [TotalTooLarge] else [])
    ensures v.valid <==> v.errors == []
  {
    ScanMatchesReference(files);
    var s := Scan(files);
    var errors := s.errors + (if s.total > MaxTotalBytes then [TotalTooLarge] else []);
    FileValidation(|errors| == 0, errors, s.accepted, s.total)
  }

  /** Every error in `es` is an individual one naming a file of `files` whose verdict it reports. */
  predicate Tagged(files: seq<File>, offset: nat, es: seq<FileError>) {
    forall k :: 0 <= k < |es| ==>
      && es[k].Individual?
      && offset < es[k].position <= offset + |files|
      && Verdict(files[es[k].position - offset - 1]) == Some(es[k].problem)
  }

  /** Positions strictly increase along `es`, so no file is named twice. */
  predicate InFileOrder(es: seq<FileError>) {
    forall k, l :: 0 <= k < l < |es| ==>
      es[k].Individual? && es[l].Individual? && es[k].position < es[l].position
  }

  /** Every failing file of `files` is named by some error in `es`. */
  predicate CoversFailures(files: seq<File>, offset: nat, es: seq<FileError>) {
    forall i :: 0 <= i < |files| && Verdict(files[i]).Some? ==>
      exists k :: 0 <= k < |es| && es[k].Individual? && es[k].position == offset + i + 1
  }

  /** Every individual error names a file of the list whose verdict is that error. */
  lemma {:induction false} IndividualErrorsTagged(files: seq<File>, offset: nat)
    ensures Tagged(files, offset, IndividualErrors(files, offset))
    decreases |files|
  {
    if files != [] {
      var es := IndividualErrors(files, offset);
      var rest := IndividualErrors(files[1..], offset + 1);
      IndividualErrorsTagged(files[1..], offset + 1);
      var head := match Verdict(files[0]) case Some(p) => [Individual(offset + 1, p)] case None => [];
      assert es == head + rest;
      forall k | 0 <= k < |es|
        ensures && es[k].Individual?
                && offset < es[k].position <= offset + |files|
                && Verdict(files[es[k].position - offset - 1]) == Some(es[k].problem)
      {
        if k >= |head| {
          var e := rest[k - |head|];
          assert es[k] == e;
          assert files[1..][e.position - (offset + 1) - 1] == files[e.position - offset - 1];
        }
      }
    }
  }

  /** Individual errors follow file order, so no file is blamed twice. */
  lemma {:induction false} IndividualErrorsOrdered(files: seq<File>, offset: nat)
    ensures InFileOrder(IndividualErrors(files, offset))
    decreases |files|
  {
    if files != [] {
      var es := IndividualErrors(files, offset);
      var rest := IndividualErrors(files[1..], offset + 1);
      IndividualErrorsOrdered(files[1..], offset + 1);
      IndividualErrorsTagged(files[1..], offset + 1);
      var head := match Verdict(files[0]) case Some(p) => [Individual(offset + 1, p)] case None => [];
      assert es == head + rest;
      forall k, l | 0 <= k < l < |es|
        ensures es[k].Individual? && es[l].Individual? && es[k].position < es[l].position
      {
        assert es[l] == rest[l - |head|];
        if k >= |head| {
          assert es[k] == rest[k - |head|];
        }
      }
    }
  }

  /** Every file that fails its individual checks has an error naming its position. */
  lemma {:induction false} IndividualErrorsComplete(files: seq<File>, offset: nat)
    ensures CoversFailures(files, offset, IndividualErrors(files, offset))
    decreases |files|
  {
    if files != [] {
      var es := IndividualErrors(files, offset);
      var rest := IndividualErrors(files[1..], offset + 1);
      IndividualErrorsComplete(files[1..], offset + 1);
      var head := match Verdict(files[0]) case Some(p) => [Individual(offset + 1, p)] case None => [];
      assert es == head + rest;
      forall i | 0 <= i < |files| && Verdict(files[i]).Some?
        ensures exists k :: 0 <= k < |es| && es[k].Individual? && es[k].position == offset + i + 1
      {
        if i == 0 {
          assert es[0].Individual? && es[0].position == offset + 1;
        } else {
          assert files[1..][i - 1] == files[i];
          var k :| 0 <= k < |rest| && rest[k].Individual? && rest[k].position == offset + 1 + (i - 1) + 1;
          assert es[k + |head|] == rest[k];
        }
      }
    }
  }

  /** The individual error list is empty exactly when every file passes. */
  lemma {:induction false} NoIndividualErrorsIff(files: seq<File>, offset: nat)
    ensures IndividualErrors(files, offset) == [] <==> forall i :: 0 <= i < |files| ==> Passes(files[i])
    decreases |files|
  {
    if files != [] {
      NoIndividualErrorsIff(files[1..], offset + 1);
      if Passes(files[0]) {
        forall i | 0 < i < |files|
          ensures files[i] == files[1..][i - 1]
        {
        }
      }
    }
  }

  /** The accepted list keeps exactly the passing files. */
  lemma {:induction false} PassingSpec(files: seq<File>)
    ensures forall f :: f in Passing(files) ==> f in files && Passes(f)
    ensures forall i :: 0 <= i < |files| && Passes(files[i]) ==> files[i] in Passing(files)
    ensures Passing(files) == files <==> forall i :: 0 <= i < |files| ==> Passes(files[i])
    decreases |files|
  {
    if files != [] {
      PassingSpec(files[1..]);
      var head := if Passes(files[0]) then [files[0]] else [];
      assert Passing(files) == head + Passing(files[1..]);
      forall i | 0 < i < |files|
        ensures files[i] == files[1..][i - 1]
      {
      }
      if Passing(files) == files {
        PassingShorter(files[1..]);
        assert files == [files[0]] + files[1..];
      }
      if forall i :: 0 <= i < |files| ==> Passes(files[i]) {
        assert files == [files[0]] + files[1..];
      }
    }
  }

  lemma {:induction false} PassingShorter(files: seq<File>)
    ensures |Passing(files)| <= |files|
    decreases |files|
  {
    if files != [] {
      PassingShorter(files[1..]);
    }
  }

  /**
   * The policy accepts a list exactly when every file passes its individual
   * checks and the sizes of all the files add up to at most 20 MiB.
   */
  lemma ValidIff(files: seq<File>)
    ensures ValidateFiles(files).valid <==>
              (forall i :: 0 <= i < |files| ==> Passes(files[i])) && SumSizes(files) <= MaxTotalBytes
  {
    NoIndividualErrorsIff(files, 0);
    PassingSpec(files);
  }

  /** Three 9 MiB PDFs: each passes alone, and the list draws exactly one error, the aggregate one. */
  lemma ThreeNineMiBFiles()
    ensures var f := File("acta.pdf", 9 * BytesPerMB, "application/pdf");
            ValidateFiles([f, f, f]).errors == [TotalTooLarge]
  {
    var f := File("acta.pdf", 9 * BytesPerMB, "application/pdf");
    assert Passes(f);
    var fs := [f, f, f];
    assert fs[1..] == [f, f];
    assert fs[1..][1..] == [f];
    assert [f][1..] == [];
    assert IndividualErrors([f], 2) == [];
    assert IndividualErrors([f, f], 1) == [];
    assert IndividualErrors(fs, 0) == [];
    assert Passing([f]) == [f];
    assert Passing([f, f]) == [f, f];
    assert Passing(fs) == fs;
    assert SumSizes([f]) == 9 * BytesPerMB;
    assert SumSizes([f, f]) == 18 * BytesPerMB;
    assert SumSizes(fs) == 27 * BytesPerMB;
  }

  /** The message text of one error. */
  function ErrorText(e: FileError): string {
    match e
    case Individual(p, TooLarge) =>
      "Archivo " + NatToString(p) + ": El archivo excede el tamaño máximo permitido (máx. "
      + NatToString(MaxFileSizeMB) + "MB)"
    case Individual(p, TypeNotAllowed) =>
      "Archivo " + NatToString(p) + ": Tipo de archivo no permitido. Solo se permiten: PDF, JPG, PNG, DOCX"
    case TotalTooLarge =>
      "El tamaño total de archivos excede el límite (máx. " + NatToString(MaxTotalSizeMB) + "MB total)"
  }

  /** `errores.join(', ')` */
  function ErrorsText(errors: seq<FileError>): string {
    Join(seq(|errors|, k requires 0 <= k < |errors| => ErrorText(errors[k])), ", ")
  }
}
