/**
 * The attachment picker (`FileUpload`) as a state machine over the file
 * list. The parent page stores whatever list the picker hands to
 * `onFilesChange`, so the state here is that list together with the
 * picker's own error text; each event yields the new state and the list
 * handed to the parent, if any.
 */
module Upload {
  import opened Wrappers
  import opened Attachments

  datatype UploadState = UploadState(files: seq<File>, validationError: Option<string>)

  datatype Change = Change(state: UploadState, emitted: Option<seq<File>>)

  const InitialUpload := UploadState([], None)

  /** The invariant the picker keeps: the current list satisfies the attachment policy. */
  predicate Consistent(s: UploadState) {
    ValidateFiles(s.files).valid
  }

  /**
   * `processFiles`: the current list followed by the new files is checked as
   * a whole. It is adopted in full exactly when every one of its files
   * passes and their sizes add up to at most 20 MiB; otherwise nothing is
   * handed on, the list stays as it was and the policy's errors are shown
   * joined with ", ". Any list handed on satisfies the policy.
   */
  function ProcessFiles(s: UploadState, incoming: seq<File>): (c: Change)
    ensures var candidate := s.files + incoming;
            c.emitted.Some? <==>
              (forall i :: 0 <= i < |candidate| ==> Passes(candidate[i])) && SumSizes(candidate) <= MaxTotalBytes
    ensures c.emitted.Some? ==> c.emitted.value == s.files + incoming && c.state == UploadState(c.emitted.value, None)
    ensures c.emitted.None? ==>
              c.state.files == s.files &&
              c.state.validationError == Some(ErrorsText(ValidateFiles(s.files + incoming).errors))
    ensures c.emitted.Some? ==> ValidateFiles(c.emitted.value).valid
  {
    var allFiles := s.files + incoming;
    var validation := ValidateFiles(allFiles);
    ValidIff(allFiles);
    if !validation.valid then
      Change(s.(validationError := Some(ErrorsText(validation.errors))), None)
    else
      Change(UploadState(allFiles, None), Some(allFiles))
  }

  /** `handleFileSelect`: an empty selection does nothing. */
  function HandleFileSelect(s: UploadState, selected: seq<File>): (c: Change)
    ensures selected == [] ==> c == Change(s, None)
    ensures selected != [] ==> c == ProcessFiles(s, selected)
  {
    if |selected| > 0 then ProcessFiles(s, selected) else Change(s, None)
  }

  /** `handleDrop`: a drop while disabled, or an empty drop, does nothing. */
  function HandleDrop(s: UploadState, disabled: bool, dropped: seq<File>): (c: Change)
    ensures disabled || dropped == [] ==> c == Change(s, None)
    ensures !disabled && dropped != [] ==> c == ProcessFiles(s, dropped)
  {
    if disabled then Change(s, None)
    else if |dropped| > 0 then ProcessFiles(s, dropped)
    else Change(s, None)
  }

  /** `files.filter((_, index) => index !== i)` */
  function WithoutIndex(files: seq<File>, i: int): (r: seq<File>)
    ensures 0 <= i < |files| ==> r == files[..i] + files[i + 1..]
    ensures !(0 <= i < |files|) ==> r == files
    decreases |files|
  {
    if files == [] then []
    else (if i == 0 then [] else [files[0]]) + WithoutIndex(files[1..], i - 1)
  }

  /**
   * `removeFile(i)`: the list without position `i` (unchanged when `i` is
   * out of range) is handed on without re-checking, and the error is cleared.
   */
  function RemoveFile(s: UploadState, i: int): (c: Change)
    ensures c.emitted == Some(c.state.files) && c.state.validationError == None
    ensures 0 <= i < |s.files| ==> c.state.files == s.files[..i] + s.files[i + 1..]
    ensures !(0 <= i < |s.files|) ==> c.state.files == s.files
  {
    var updatedFiles := WithoutIndex(s.files, i);
    Change(UploadState(updatedFiles, None), Some(updatedFiles))
  }

  /** Removing one file from a list that satisfies the policy leaves one that does. */
  lemma RemovalKeepsValid(files: seq<File>, i: int)
    requires ValidateFiles(files).valid
    ensures ValidateFiles(WithoutIndex(files, i)).valid
  {
    ValidIff(files);
    if 0 <= i < |files| {
      var a, b := files[..i], files[i + 1..];
      var r := a + b;
      assert files == a + [files[i]] + b;
      SumSizesAppend(a + [files[i]], b);
      SumSizesAppend(a, [files[i]]);
      SumSizesAppend(a, b);
      forall k | 0 <= k < |r|
        ensures Passes(r[k])
      {
        if k < i {
          assert r[k] == files[k];
        } else {
          assert r[k] == files[k + 1];
        }
      }
      ValidIff(r);
    }
  }

  /** Every event keeps a consistent picker consistent. */
  lemma EventsKeepConsistency(s: UploadState, incoming: seq<File>, disabled: bool, i: int)
    requires Consistent(s)
    ensures Consistent(ProcessFiles(s, incoming).state)
    ensures Consistent(HandleFileSelect(s, incoming).state)
    ensures Consistent(HandleDrop(s, disabled, incoming).state)
    ensures Consistent(RemoveFile(s, i).state)
  {
    RemovalKeepsValid(s.files, i);
  }

  /**
   * The total shown under the list, `files.reduce((sum, f) => sum + f.size, 0)`:
   * the same sum the policy bounds, so a consistent list never shows more
   * than 20 MiB.
   */
  function TotalSize(files: seq<File>): (total: nat)
    ensures total == SumSizes(files)
    ensures ValidateFiles(files).valid ==> total <= MaxTotalBytes
    decreases |files|
  {
    if files == [] then 0
    else
      var init, last := files[..|files| - 1], files[|files| - 1];
      assert files == init + [last];
      SumSizesAppend(init, [last]);
      ValidIff(files);
      TotalSize(init) + last.size
  }
}
