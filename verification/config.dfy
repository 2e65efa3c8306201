/** A prefix's own configuration record (`src/prefix/config.rs`): its name,
    architecture and list of registered executables.  Timestamps are clock
    readings passed in by the caller. */
module Config {
  import opened Common
  import opened Strings

  datatype RegisteredExecutable = RegisteredExecutable(
    name: string,
    description: Option<string>,
    iconPath: Option<string>,
    executablePath: string)

  /** `RegisteredExecutable::new`: no description and no icon. */
  function NewExecutable(name: string, executablePath: string): (e: RegisteredExecutable)
    ensures e.name == name && e.executablePath == executablePath
    ensures e.description.None? && e.iconPath.None?
  {
    RegisteredExecutable(name, None, None, executablePath)
  }

  datatype PrefixConfig = PrefixConfig(
    version: string,
    name: string,
    creationDate: nat,
    lastModified: nat,
    wineVersion: Option<string>,
    architecture: string,
    description: Option<string>,
    registeredExecutables: seq<RegisteredExecutable>)

  const ConfigVersion: string := "1.0.0"

  /** `PrefixConfig::new`: created and modified at `now`, with nothing
      registered. */
  function NewConfig(name: string, architecture: string, now: nat): (c: PrefixConfig)
    ensures c.version == "1.0.0" && c.name == name && c.architecture == architecture
    ensures c.creationDate == now && c.lastModified == now
    ensures c.wineVersion.None? && c.description.None?
    ensures GetExecutableCount(c) == 0
  {
    PrefixConfig(ConfigVersion, name, now, now, None, architecture, None, [])
  }

  /** `add_executable`: appends `e` and stamps the modification time. */
  function AddExecutable(c: PrefixConfig, e: RegisteredExecutable, now: nat): (r: PrefixConfig)
    ensures GetExecutableCount(r) == GetExecutableCount(c) + 1
    ensures r.registeredExecutables[GetExecutableCount(c)] == e
    ensures forall i :: 0 <= i < GetExecutableCount(c) ==> r.registeredExecutables[i] == c.registeredExecutables[i]
    ensures r.lastModified == now
    ensures r.(registeredExecutables := c.registeredExecutables, lastModified := c.lastModified) == c
  {
    c.(registeredExecutables := c.registeredExecutables + [e], lastModified := now)
  }

  /** `remove_executable`: an index inside the list removes that entry,
      keeps the others in order and stamps the modification time; any other
      index changes nothing, not even the modification time. */
  function RemoveExecutable(c: PrefixConfig, index: nat, now: nat): (r: PrefixConfig)
    ensures index >= GetExecutableCount(c) ==> r == c
    ensures index < GetExecutableCount(c) ==>
      GetExecutableCount(r) == GetExecutableCount(c) - 1
      && (forall i :: 0 <= i < index ==> r.registeredExecutables[i] == c.registeredExecutables[i])
      && (forall i :: index <= i < GetExecutableCount(r) ==> r.registeredExecutables[i] == c.registeredExecutables[i + 1])
      && r.lastModified == now
    ensures r.(registeredExecutables := c.registeredExecutables, lastModified := c.lastModified) == c
  {
    var list := c.registeredExecutables;
    if index < |list| then c.(registeredExecutables := list[..index] + list[index + 1..], lastModified := now)
    else c
  }

  /** `get_executable_count`. */
  function GetExecutableCount(c: PrefixConfig): (n: nat)
    ensures n == |c.registeredExecutables|
  {
    |c.registeredExecutables|
  }

  /** Index of the first executable named `name` at or after `from`. */
  function FirstNamed(list: seq<RegisteredExecutable>, name: string, from: nat): (r: Option<nat>)
    requires from <= |list|
    ensures r.Some? ==>
      from <= r.value < |list| && list[r.value].name == name
      && (forall j :: from <= j < r.value ==> list[j].name != name)
    ensures r.None? ==> forall j :: from <= j < |list| ==> list[j].name != name
    decreases |list| - from
  {
    if from == |list| then None
    else if list[from].name == name then Some(from)
    else FirstNamed(list, name, from + 1)
  }

  /** Entry `i` is the first one named `name`. */
  predicate FirstWithName(list: seq<RegisteredExecutable>, name: string, i: int) {
    0 <= i < |list| && list[i].name == name && forall j :: 0 <= j < i ==> list[j].name != name
  }

  /** `get_executable_by_name`: the first executable with exactly that
      name. */
  function GetExecutableByName(c: PrefixConfig, name: string): (r: Option<RegisteredExecutable>)
    ensures r.None? <==> forall i :: 0 <= i < |c.registeredExecutables| ==> c.registeredExecutables[i].name != name
    ensures r.Some? ==> r.value.name == name
    ensures r.Some? ==> exists i :: FirstWithName(c.registeredExecutables, name, i) && c.registeredExecutables[i] == r.value
  {
    match FirstNamed(c.registeredExecutables, name, 0)
    case Some(i) => Some(c.registeredExecutables[i])
    case None => None
  }

  /** An executable just added is found by its name unless an earlier one
      has the same name. */
  lemma AddedExecutableIsFound(c: PrefixConfig, e: RegisteredExecutable, now: nat)
    ensures GetExecutableByName(AddExecutable(c, e, now), e.name)
      == (if GetExecutableByName(c, e.name).Some? then GetExecutableByName(c, e.name) else Some(e))
  {
    var r := AddExecutable(c, e, now);
    var list := c.registeredExecutables;
    var after := r.registeredExecutables;
    assert |after| == |list| + 1 && after[|list|] == e;
    assert forall j :: 0 <= j < |list| ==> after[j] == list[j];
    match GetExecutableByName(c, e.name)
    case None =>
      assert GetExecutableByName(r, e.name).Some?;
      var k :| FirstWithName(after, e.name, k) && after[k] == GetExecutableByName(r, e.name).value;
      assert k == |list|;
    case Some(x) =>
      var i :| FirstWithName(list, e.name, i) && list[i] == x;
      assert after[i].name == e.name;
      assert GetExecutableByName(r, e.name).Some?;
      var k :| FirstWithName(after, e.name, k) && after[k] == GetExecutableByName(r, e.name).value;
      assert k < |list| ==> after[k] == list[k];
      assert k == i;
  }

  /** Removing the entry just added restores the list. */
  lemma RemoveUndoesAdd(c: PrefixConfig, e: RegisteredExecutable, added: nat, removed: nat)
    ensures RemoveExecutable(AddExecutable(c, e, added), GetExecutableCount(c), removed).registeredExecutables
      == c.registeredExecutables
  {
    var r := RemoveExecutable(AddExecutable(c, e, added), GetExecutableCount(c), removed);
    assert |r.registeredExecutables| == |c.registeredExecutables|;
  }

  /** The outcome of `validate`. */
  datatype Verdict = Valid | Invalid(message: string)

  const EmptyName: string := "Prefix name cannot be empty"
  const EmptyArchitecture: string := "Architecture cannot be empty"
  const BadArchitecture: string := "Architecture must be 'win32' or 'win64'"

  function EmptyExecutableName(i: nat): string {
    "Executable " + NatToString(i) + " has empty name"
  }

  function MissingExecutable(i: nat, path: string): string {
    "Executable " + NatToString(i) + " has non-existent path: " + path
  }

  predicate KnownArchitecture(arch: string) {
    arch == "win32" || arch == "win64"
  }

  /** What `validate` demands of executable `i`: a name, and a path that
      exists. */
  predicate ExecutableOk(e: RegisteredExecutable, existing: set<string>) {
    e.name != "" && e.executablePath in existing
  }

  /** The complaint about executable `i`, if any. */
  function ExecutableComplaint(e: RegisteredExecutable, i: nat, existing: set<string>): Option<string> {
    if e.name == "" then Some(EmptyExecutableName(i))
    else if e.executablePath !in existing then Some(MissingExecutable(i, e.executablePath))
    else None
  }

  /** The complaint about the first bad executable at or after `from`. */
  function ValidateExecutables(list: seq<RegisteredExecutable>, from: nat, existing: set<string>): (r: Verdict)
    requires from <= |list|
    ensures r.Valid? <==> forall j :: from <= j < |list| ==> ExecutableOk(list[j], existing)
    ensures r.Invalid? ==>
      exists i :: from <= i < |list|
        && (forall j :: from <= j < i ==> ExecutableOk(list[j], existing))
        && ExecutableComplaint(list[i], i, existing) == Some(r.message)
    decreases |list| - from
  {
    if from == |list| then Valid
    else match ExecutableComplaint(list[from], from, existing)
      case Some(m) => Invalid(m)
      case None => ValidateExecutables(list, from + 1, existing)
  }

  /** `validate`: checks the name, then the architecture, then each
      executable in order, and reports the first failure.  `existing` is the
      set of paths that exist on disk. */
  function Validate(c: PrefixConfig, existing: set<string>): (r: Verdict)
    ensures r.Valid? <==>
      c.name != "" && KnownArchitecture(c.architecture)
      && (forall i :: 0 <= i < |c.registeredExecutables| ==> ExecutableOk(c.registeredExecutables[i], existing))
    ensures c.name == "" ==> r == Invalid(EmptyName)
    ensures c.name != "" && c.architecture == "" ==> r == Invalid(EmptyArchitecture)
    ensures c.name != "" && c.architecture != "" && !KnownArchitecture(c.architecture) ==> r == Invalid(BadArchitecture)
    ensures c.name != "" && KnownArchitecture(c.architecture) && r.Invalid? ==>
      exists i :: 0 <= i < |c.registeredExecutables|
        && (forall j :: 0 <= j < i ==> ExecutableOk(c.registeredExecutables[j], existing))
        && (if c.registeredExecutables[i].name == "" then r.message == EmptyExecutableName(i)
            else (c.registeredExecutables[i].executablePath !in existing
                  && r.message == MissingExecutable(i, c.registeredExecutables[i].executablePath)))
  {
    if c.name == "" then Invalid(EmptyName)
    else if c.architecture == "" then Invalid(EmptyArchitecture)
    else if !KnownArchitecture(c.architecture) then Invalid(BadArchitecture)
    else ValidateExecutables(c.registeredExecutables, 0, existing)
  }

  /** A fresh configuration is valid exactly when it has a name and one of
      the two architectures. */
  lemma NewConfigValidity(name: string, architecture: string, now: nat, existing: set<string>)
    ensures Validate(NewConfig(name, architecture, now), existing).Valid? <==> name != "" && KnownArchitecture(architecture)
  {
  }

  /** The complaint comes from the first executable that fails. */
  lemma FirstComplaint(list: seq<RegisteredExecutable>, n: nat, existing: set<string>)
    requires n < |list|
    requires forall j :: 0 <= j < n ==> ExecutableOk(list[j], existing)
    requires !ExecutableOk(list[n], existing)
    ensures ValidateExecutables(list, 0, existing) == Invalid(ExecutableComplaint(list[n], n, existing).value)
  {
    var v := ValidateExecutables(list, 0, existing);
    assert v.Invalid?;
    var i :| 0 <= i < |list|
      && (forall j :: 0 <= j < i ==> ExecutableOk(list[j], existing))
      && ExecutableComplaint(list[i], i, existing) == Some(v.message);
    assert i == n;
  }

  /** Adding a nameless executable makes any configuration invalid; when
      the configuration was valid before, the complaint names the new
      executable's index. */
  lemma NamelessExecutableIsRejected(c: PrefixConfig, e: RegisteredExecutable, now: nat, existing: set<string>)
    requires e.name == ""
    ensures Validate(AddExecutable(c, e, now), existing).Invalid?
    ensures Validate(c, existing).Valid? ==>
      Validate(AddExecutable(c, e, now), existing) == Invalid(EmptyExecutableName(GetExecutableCount(c)))
  {
    var r := AddExecutable(c, e, now);
    var n := GetExecutableCount(c);
    assert !ExecutableOk(r.registeredExecutables[n], existing);
    if Validate(c, existing).Valid? {
      assert forall j :: 0 <= j < n ==> r.registeredExecutables[j] == c.registeredExecutables[j];
      FirstComplaint(r.registeredExecutables, n, existing);
    }
  }
}
