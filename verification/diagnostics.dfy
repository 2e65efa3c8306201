/** The editor's diagnostics (`src/prefix/regeditor/editor.rs`):
    `validate_registry`, which reports every key with a malformed path and
    every malformed value name under the well-formed keys, and
    `get_all_keys`. */
module Diagnostics {
  import opened Common
  import opened Strings
  import opened Keys
  import opened Store
  import opened Editor

  /** The value-name problems among `names` under the key `path`, in the
      order listed. */
  function NameProblems(path: string, names: seq<string>): (r: seq<ValidationError>)
    ensures forall e :: e in r <==>
      e.keyPath == path && e.valueName.Some? && e.valueName.value in names
      && !ValidValueName(e.valueName.value)
      && e.errorMessage == ErrorText(ValidateValueName(e.valueName.value).error)
    decreases |names|
  {
    if |names| == 0 then []
    else
      var rest := NameProblems(path, names[1..]);
      match ValidateValueName(names[0])
      case Err(err) => [ValidationError(path, Some(names[0]), ErrorText(err))] + rest
      case Ok(_) => rest
  }

  /** The problems of one key: its path if that is malformed (its values
      are then not looked at), otherwise its value names in ascending
      order. */
  function KeyProblems(reg: Registry, path: string): seq<ValidationError> {
    match ValidateKeyPath(path)
    case Err(err) => [ValidationError(path, None, ErrorText(err))]
    case Ok(_) => NameProblems(path, Ascending(GetKeyValues(reg, path).Keys))
  }

  /** What `validate_registry` reports about the key `e.keyPath` of `reg`,
      stated without reference to the traversal. */
  ghost predicate Reported(reg: Registry, e: ValidationError) {
    KeyExists(reg, e.keyPath)
    && if !ValidKeyPath(e.keyPath) then
         e.valueName.None? && e.errorMessage == ErrorText(ValidateKeyPath(e.keyPath).error)
       else
         e.valueName.Some? && GetValue(reg, e.keyPath, e.valueName.value).Some?
         && !ValidValueName(e.valueName.value)
         && e.errorMessage == ErrorText(ValidateValueName(e.valueName.value).error)
  }

  lemma KeyProblemsAre(reg: Registry, path: string)
    requires KeyExists(reg, path)
    ensures forall e :: e in KeyProblems(reg, path) <==> e.keyPath == path && Reported(reg, e)
  {
    if ValidKeyPath(path) {
      AscendingListsKeys(GetKeyValues(reg, path));
    }
  }

  function ProblemsOf(reg: Registry, paths: seq<string>): (r: seq<ValidationError>)
    requires forall i :: 0 <= i < |paths| ==> KeyExists(reg, paths[i])
    ensures forall e :: e in r <==> e.keyPath in paths && Reported(reg, e)
    decreases |paths|
  {
    if |paths| == 0 then []
    else
      KeyProblemsAre(reg, paths[0]);
      KeyProblems(reg, paths[0]) + ProblemsOf(reg, paths[1..])
  }

  /** `validate_registry`: walks every key `find_keys("")` lists.  The
      reported problems are exactly the malformed key paths (with no value
      name) and the malformed value names of well-formed keys. */
  function ValidateRegistry(reg: Registry): (r: seq<ValidationError>)
    ensures forall e :: e in r <==> Reported(reg, e)
  {
    var paths := FindKeys(reg, "");
    forall p | KeyExists(reg, p) ensures p in paths {
      EmptyContained(p);
    }
    ProblemsOf(reg, paths)
  }

  /** A registry passes validation exactly when every key path is
      well-formed and every value name under it is too. */
  lemma ValidatesCleanly(reg: Registry)
    ensures ValidateRegistry(reg) == [] <==>
      (forall p :: KeyExists(reg, p) ==> ValidKeyPath(p))
      && (forall p, n :: GetValue(reg, p, n).Some? ==> ValidValueName(n))
  {
    var r := ValidateRegistry(reg);
    if r == [] {
      forall p | KeyExists(reg, p) ensures ValidKeyPath(p) {
        assert !ValidKeyPath(p) ==> Reported(reg, ValidationError(p, None, ErrorText(ValidateKeyPath(p).error)));
      }
      forall p, n | GetValue(reg, p, n).Some? ensures ValidValueName(n) {
        assert ValidKeyPath(p) && !ValidValueName(n) ==>
          Reported(reg, ValidationError(p, Some(n), ErrorText(ValidateValueName(n).error)));
      }
    } else {
      var e := r[0];
      assert Reported(reg, e);
    }
  }

  /** The DPI key lies outside `Software`, so once it exists it is reported
      as a malformed key path. */
  lemma DpiKeyIsReported(reg: Registry)
    requires KeyExists(reg, DpiPath)
    ensures ValidationError(DpiPath, None, "Validation error: " + KeyPathFormat(DpiPath)) in ValidateRegistry(reg)
  {
    EditorPathsValidity();
    assert Reported(reg, ValidationError(DpiPath, None, "Validation error: " + KeyPathFormat(DpiPath)));
  }

  /** `get_all_keys`: every key path, in iteration order. */
  function GetAllKeys(reg: Registry): (r: seq<string>)
    ensures r == Paths(reg)
    ensures forall p :: p in r <==> KeyExists(reg, p)
  {
    FindAllKeys(reg);
    FindKeys(reg, "")
  }
}
