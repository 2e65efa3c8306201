/** The registry editor's building blocks (`src/prefix/regeditor/editor.rs`):
    the key paths it works under, the key-path and value-name validators,
    typed reads and writes, the ordered write sequence every composite setter
    performs, and the single-value settings. */
module Editor {
  import opened Common
  import opened Strings
  import opened Keys
  import opened Store

  // ---------------------------------------------------------------------------
  // Key paths
  // ---------------------------------------------------------------------------

  const WinePath: string := "Software\\Wine"
  const Direct3DPath: string := "Software\\Wine\\Direct3D"
  const DirectInputPath: string := "Software\\Wine\\DirectInput"
  const AudioPath: string := "Software\\Wine\\Drivers\\Audio"
  const GraphicsPath: string := "Software\\Wine\\Drivers\\Graphics"
  const ExplorerPath: string := "Software\\Wine\\Explorer"
  const DesktopsPath: string := "Software\\Wine\\Explorer\\Desktops"
  const FontReplacementsPath: string := "Software\\Wine\\Fonts\\Replacements"
  const DllOverridesPath: string := "Software\\Wine\\DllOverrides"
  const AppDefaultsPath: string := "Software\\Wine\\AppDefaults\\"
  const X11DriverPath: string := "Software\\Wine\\X11 Driver"
  const MacDriverPath: string := "Software\\Wine\\Mac Driver"
  const DpiPath: string := "Control Panel\\Desktop"

  /** A registry after an editing call, with the call's outcome.  Composite
      setters can fail after some writes, so the registry is returned on
      both paths. */
  datatype Update = Update(reg: Registry, status: Status)

  // ---------------------------------------------------------------------------
  // Validation
  // ---------------------------------------------------------------------------

  const KeyPathEmpty: string := "Key path cannot be empty"
  const ValueNameEmpty: string := "Value name cannot be empty"

  function KeyPathFormat(path: string): string {
    "Invalid key path format: " + path + ". Expected to start with 'Software'"
  }

  function InvalidCharacter(c: char): string {
    "Invalid character '" + [c] + "' in value name"
  }

  predicate ValidKeyPath(path: string) {
    path != "" && StartsWith(path, "Software")
  }

  /** `validate_key_path`: the path must be non-empty and start with
      `Software`. */
  function ValidateKeyPath(path: string): (r: Status)
    ensures r.Ok? <==> ValidKeyPath(path)
    ensures path == "" ==> r == Err(Validation(KeyPathEmpty))
    ensures path != "" && r.Err? ==> r == Err(Validation(KeyPathFormat(path)))
  {
    if path == "" then Err(Validation(KeyPathEmpty))
    else if !StartsWith(path, "Software") then Err(Validation(KeyPathFormat(path)))
    else Ok(())
  }

  /** Characters a value name may not contain. */
  const InvalidNameChars: seq<char> := ['\\', '/', ':', '*', '?', '"', '<', '>', '|']

  predicate ValidValueName(name: string) {
    name != "" && forall i :: 0 <= i < |name| ==> name[i] !in InvalidNameChars
  }

  /** Index of the first forbidden character of `name` at or after `from`. */
  function FirstInvalidFrom(name: string, from: nat): (r: Option<nat>)
    requires from <= |name|
    ensures r.Some? ==> from <= r.value < |name| && name[r.value] in InvalidNameChars
    ensures r.Some? ==> forall j :: from <= j < r.value ==> name[j] !in InvalidNameChars
    ensures r.None? ==> forall j :: from <= j < |name| ==> name[j] !in InvalidNameChars
    decreases |name| - from
  {
    if from == |name| then None
    else if name[from] in InvalidNameChars then Some(from)
    else FirstInvalidFrom(name, from + 1)
  }

  /** `validate_value_name`: the name must be non-empty and free of the
      forbidden characters; the error names the first offending one. */
  function ValidateValueName(name: string): (r: Status)
    ensures r.Ok? <==> ValidValueName(name)
    ensures name == "" ==> r == Err(Validation(ValueNameEmpty))
    ensures name != "" && r.Err? ==>
      exists i :: 0 <= i < |name| && name[i] in InvalidNameChars
        && (forall j :: 0 <= j < i ==> name[j] !in InvalidNameChars)
        && r == Err(Validation(InvalidCharacter(name[i])))
  {
    if name == "" then Err(Validation(ValueNameEmpty))
    else match FirstInvalidFrom(name, 0)
      case Some(i) => Err(Validation(InvalidCharacter(name[i])))
      case None => Ok(())
  }

  /** Letters, digits and spaces: the characters of every value name the
      editor itself writes under. */
  predicate IsPlainChar(c: char) {
    'A' <= c <= 'Z' || 'a' <= c <= 'z' || '0' <= c <= '9' || c == ' '
  }

  lemma PlainNameIsValid(name: string)
    requires name != "" && forall i :: 0 <= i < |name| ==> IsPlainChar(name[i])
    ensures ValidValueName(name)
  {
  }

  /** Every `Software\Wine` path the editor uses passes key-path validation;
      the DPI key's path does not. */
  lemma EditorPathsValidity()
    ensures ValidKeyPath(WinePath) && ValidKeyPath(Direct3DPath) && ValidKeyPath(DirectInputPath)
    ensures ValidKeyPath(AudioPath) && ValidKeyPath(GraphicsPath) && ValidKeyPath(ExplorerPath)
    ensures ValidKeyPath(DesktopsPath) && ValidKeyPath(FontReplacementsPath) && ValidKeyPath(DllOverridesPath)
    ensures ValidKeyPath(X11DriverPath) && ValidKeyPath(MacDriverPath)
    ensures forall app :: ValidKeyPath(AppDefaultsPath + app)
    ensures !ValidKeyPath(DpiPath)
  {
    assert WinePath[..8] == Direct3DPath[..8] == DirectInputPath[..8] == "Software";
    assert AudioPath[..8] == GraphicsPath[..8] == ExplorerPath[..8] == "Software";
    assert DesktopsPath[..8] == FontReplacementsPath[..8] == DllOverridesPath[..8] == "Software";
    assert X11DriverPath[..8] == MacDriverPath[..8] == AppDefaultsPath[..8] == "Software";
    assert DpiPath[0] != 'S';
    forall app ensures ValidKeyPath(AppDefaultsPath + app) {
      assert (AppDefaultsPath + app)[..8] == AppDefaultsPath[..8];
    }
  }

  /** The default slot's spelling passes value-name validation; the empty
      name, which the audio and graphics settings use, does not. */
  lemma DefaultSlotNameIsValid()
    ensures ValidValueName(DefaultSlotName)
    ensures !ValidValueName("")
  {
  }

  // ---------------------------------------------------------------------------
  // Typed reads and writes
  // ---------------------------------------------------------------------------

  /** A value a string read accepts, holding `t`: `REG_SZ` or `REG_EXPAND_SZ`. */
  predicate HoldsText(v: Option<Value>, t: string) {
    v == Some(Sz(t)) || v == Some(ExpandSz(t))
  }

  /** `get_string_value`: the text of an `Sz` or `ExpandSz` value; any other
      type reads as absent. */
  function GetStringValue(reg: Registry, path: string, name: string): (r: Option<string>)
    ensures r.Some? <==>
      (GetValue(reg, path, name).Some?
       && (GetValue(reg, path, name).value.Sz? || GetValue(reg, path, name).value.ExpandSz?))
    ensures r.Some? ==> GetValue(reg, path, name) in {Some(Sz(r.value)), Some(ExpandSz(r.value))}
  {
    match GetValue(reg, path, name)
    case Some(Sz(s)) => Some(s)
    case Some(ExpandSz(s)) => Some(s)
    case _ => None
  }

  /** `get_dword_value`: the number of a `Dword` value; any other type reads
      as absent. */
  function GetDwordValue(reg: Registry, path: string, name: string): (r: Option<u32>)
    ensures r.Some? <==> GetValue(reg, path, name).Some? && GetValue(reg, path, name).value.Dword?
    ensures r.Some? ==> GetValue(reg, path, name) == Some(Dword(r.value))
  {
    match GetValue(reg, path, name)
    case Some(Dword(d)) => Some(d)
    case _ => None
  }

  /** `set_string_value`: stores an `Sz`; reading it back gives the text. */
  function SetStringValue(reg: Registry, path: string, name: string, text: string): (r: Registry)
    ensures GetStringValue(r, path, name) == Some(text)
    ensures Untouched(reg, r, path, name)
  {
    SetValue(reg, path, name, Sz(text))
  }

  /** `set_dword_value`: stores a `Dword`; reading it back gives the number. */
  function SetDwordValue(reg: Registry, path: string, name: string, number: u32): (r: Registry)
    ensures GetDwordValue(r, path, name) == Some(number)
    ensures Untouched(reg, r, path, name)
  {
    SetValue(reg, path, name, Dword(number))
  }

  // ---------------------------------------------------------------------------
  // The write sequence of the composite setters
  // ---------------------------------------------------------------------------

  /** One step of a composite setter: the value name and, when the setting's
      field is present, the value to store (an absent field is skipped). */
  datatype Write = Write(name: string, value: Option<Value>)

  /** The value the last present write to `name` stores, if any. */
  function LastWrite(ws: seq<Write>, name: string): Option<Value>
    decreases |ws|
  {
    if |ws| == 0 then None
    else
      var later := LastWrite(ws[1..], name);
      if later.Some? then later
      else if ws[0].name == name then ws[0].value
      else None
  }

  /** Every present write carries a valid value name. */
  predicate WritesValid(ws: seq<Write>) {
    forall i :: 0 <= i < |ws| && ws[i].value.Some? ==> ValidValueName(ws[i].name)
  }

  predicate NoWrites(ws: seq<Write>) {
    forall i :: 0 <= i < |ws| ==> ws[i].value.None?
  }

  /** Index of the first present write whose value name is invalid. */
  function FirstInvalidWrite(ws: seq<Write>): (r: Option<nat>)
    ensures r.None? <==> WritesValid(ws)
    ensures r.Some? ==> r.value < |ws| && ws[r.value].value.Some? && !ValidValueName(ws[r.value].name)
    ensures r.Some? ==> WritesValid(ws[..r.value])
    decreases |ws|
  {
    if |ws| == 0 then None
    else if ws[0].value.Some? && !ValidValueName(ws[0].name) then Some(0)
    else
      var rest := FirstInvalidWrite(ws[1..]);
      assert forall i :: 1 <= i < |ws| ==> ws[1..][i - 1] == ws[i];
      match rest
      case None => None
      case Some(j) =>
        assert ws[..j + 1][1..] == ws[1..][..j];
        Some(j + 1)
  }

  /** How many writes a call performs before it stops: all of them, or
      those before the first invalid one. */
  function Performed(ws: seq<Write>): (k: nat)
    ensures k <= |ws|
  {
    match FirstInvalidWrite(ws)
    case None => |ws|
    case Some(i) => i
  }

  /** Performs the writes in order under key `path`, validating each present
      write's value name just before storing it.  The first invalid name
      stops the sequence with that name's validation error; the writes
      before it stay in the registry (`WriteAllStores`). */
  function WriteAll(reg: Registry, path: string, ws: seq<Write>): (r: Update)
    ensures r.status.Ok? <==> WritesValid(ws)
    ensures r.status.Err? ==> r.status == ValidateValueName(ws[FirstInvalidWrite(ws).value].name)
    ensures forall p, n :: p != path ==> GetValue(r.reg, p, n) == GetValue(reg, p, n)
    ensures forall p :: p != path ==> (KeyExists(r.reg, p) <==> KeyExists(reg, p))
    ensures forall p :: KeyExists(reg, p) ==> KeyExists(r.reg, p)
    ensures NoWrites(ws) ==> r == Update(reg, Ok(()))
    decreases |ws|
  {
    if |ws| == 0 then Update(reg, Ok(()))
    else
      assert forall i :: 1 <= i < |ws| ==> ws[1..][i - 1] == ws[i];
      if ws[0].value.None? then WriteAll(reg, path, ws[1..])
      else match ValidateValueName(ws[0].name)
        case Err(e) => Update(reg, Err(e))
        case Ok(_) => WriteAll(SetValue(reg, path, ws[0].name, ws[0].value.value), path, ws[1..])
  }

  lemma LastWriteUnfold(ws: seq<Write>, k: nat, n: string)
    requires 0 < k <= |ws|
    ensures LastWrite(ws[..k], n)
      == Overlay(LastWrite(ws[1..][..k - 1], n), if ws[0].name == n then ws[0].value else None)
  {
    assert ws[..k][1..] == ws[1..][..k - 1];
  }

  /** A write that does not stop the sequence counts as performed. */
  lemma PerformedStep(ws: seq<Write>)
    requires |ws| > 0 && (ws[0].value.None? || ValidValueName(ws[0].name))
    ensures Performed(ws) == Performed(ws[1..]) + 1
  {
  }

  /** What `WriteAll` leaves in one slot under `path`: the last of the
      performed writes to that name, over what was there before. */
  lemma {:induction false} WriteAllStoresAt(reg: Registry, path: string, ws: seq<Write>, n: string)
    ensures GetValue(WriteAll(reg, path, ws).reg, path, n) == Overlay(LastWrite(ws[..Performed(ws)], n), GetValue(reg, path, n))
    decreases |ws|
  {
    if |ws| == 0 {
      assert ws[..0] == [];
    } else if ws[0].value.Some? && !ValidValueName(ws[0].name) {
      assert ws[..0] == [];
    } else if ws[0].value.None? {
      WriteAllStoresAt(reg, path, ws[1..], n);
      StoresAtAfterSkip(reg, path, ws, n);
    } else {
      var reg1 := SetValue(reg, path, ws[0].name, ws[0].value.value);
      WriteAllStoresAt(reg1, path, ws[1..], n);
      StoresAtAfterSet(reg, path, ws, n);
    }
  }

  /** The step of `WriteAllStoresAt` past an absent write. */
  lemma StoresAtAfterSkip(reg: Registry, path: string, ws: seq<Write>, n: string)
    requires |ws| > 0 && ws[0].value.None?
    requires GetValue(WriteAll(reg, path, ws[1..]).reg, path, n)
      == Overlay(LastWrite(ws[1..][..Performed(ws[1..])], n), GetValue(reg, path, n))
    ensures GetValue(WriteAll(reg, path, ws).reg, path, n) == Overlay(LastWrite(ws[..Performed(ws)], n), GetValue(reg, path, n))
  {
    PerformedStep(ws);
    LastWriteUnfold(ws, Performed(ws), n);
    WriteAllSkip(reg, path, ws);
  }

  /** The step of `WriteAllStoresAt` past a performed write. */
  lemma StoresAtAfterSet(reg: Registry, path: string, ws: seq<Write>, n: string)
    requires |ws| > 0 && ws[0].value.Some? && ValidValueName(ws[0].name)
    requires var reg1 := SetValue(reg, path, ws[0].name, ws[0].value.value);
      GetValue(WriteAll(reg1, path, ws[1..]).reg, path, n)
        == Overlay(LastWrite(ws[1..][..Performed(ws[1..])], n), GetValue(reg1, path, n))
    ensures GetValue(WriteAll(reg, path, ws).reg, path, n) == Overlay(LastWrite(ws[..Performed(ws)], n), GetValue(reg, path, n))
  {
    PerformedStep(ws);
    LastWriteUnfold(ws, Performed(ws), n);
    WriteAllFirst(reg, path, ws);
    SetValueOverlay(reg, path, ws[0], n);
  }

  lemma WriteAllSkip(reg: Registry, path: string, ws: seq<Write>)
    requires |ws| > 0 && ws[0].value.None?
    ensures WriteAll(reg, path, ws) == WriteAll(reg, path, ws[1..])
  {
  }

  lemma WriteAllFirst(reg: Registry, path: string, ws: seq<Write>)
    requires |ws| > 0 && ws[0].value.Some? && ValidValueName(ws[0].name)
    ensures WriteAll(reg, path, ws) == WriteAll(SetValue(reg, path, ws[0].name, ws[0].value.value), path, ws[1..])
  {
  }

  lemma SetValueOverlay(reg: Registry, path: string, w: Write, n: string)
    requires w.value.Some?
    ensures GetValue(SetValue(reg, path, w.name, w.value.value), path, n)
      == Overlay(if w.name == n then w.value else None, GetValue(reg, path, n))
  {
  }

  /** What `WriteAll` leaves under `path`, slot by slot. */
  lemma WriteAllStores(reg: Registry, path: string, ws: seq<Write>)
    ensures forall n ::
      GetValue(WriteAll(reg, path, ws).reg, path, n) == Overlay(LastWrite(ws[..Performed(ws)], n), GetValue(reg, path, n))
  {
    forall n ensures GetValue(WriteAll(reg, path, ws).reg, path, n) == Overlay(LastWrite(ws[..Performed(ws)], n), GetValue(reg, path, n)) {
      WriteAllStoresAt(reg, path, ws, n);
    }
  }

  /** Present writes to pairwise distinct names. */
  predicate DistinctNames(ws: seq<Write>) {
    forall i, j :: 0 <= i < j < |ws| ==> ws[i].name != ws[j].name
  }

  lemma {:induction false} LastWriteOfDistinct(ws: seq<Write>, k: nat)
    requires DistinctNames(ws) && k < |ws|
    ensures LastWrite(ws, ws[k].name) == ws[k].value
    decreases |ws|
  {
    if k > 0 {
      LastWriteOfDistinct(ws[1..], k - 1);
    } else {
      LastWriteOfAbsent(ws[1..], ws[0].name);
    }
  }

  lemma {:induction false} LastWriteOfAbsent(ws: seq<Write>, name: string)
    requires forall i :: 0 <= i < |ws| ==> ws[i].name != name
    ensures LastWrite(ws, name) == None
    decreases |ws|
  {
    if |ws| > 0 {
      LastWriteOfAbsent(ws[1..], name);
    }
  }

  function NamesOf(ws: seq<Write>): (names: seq<string>)
    ensures |names| == |ws|
    ensures forall i :: 0 <= i < |ws| ==> names[i] == ws[i].name
  {
    seq(|ws|, i requires 0 <= i < |ws| => ws[i].name)
  }

  /** Writes to distinct, valid names all succeed: each named slot holds its
      write when present and keeps its old value otherwise, and every other
      slot of the key is left alone. */
  lemma WriteDistinctGroup(reg: Registry, path: string, ws: seq<Write>)
    requires DistinctNames(ws) && WritesValid(ws)
    ensures WriteAll(reg, path, ws).status.Ok?
    ensures forall i :: 0 <= i < |ws| ==>
      GetValue(WriteAll(reg, path, ws).reg, path, ws[i].name) == Overlay(ws[i].value, GetValue(reg, path, ws[i].name))
    ensures forall n :: n !in NamesOf(ws) ==> GetValue(WriteAll(reg, path, ws).reg, path, n) == GetValue(reg, path, n)
  {
    WriteAllStores(reg, path, ws);
    assert ws[..Performed(ws)] == ws;
    forall i | 0 <= i < |ws| ensures LastWrite(ws, ws[i].name) == ws[i].value {
      LastWriteOfDistinct(ws, i);
    }
    forall n | n !in NamesOf(ws) ensures LastWrite(ws, n) == None {
      LastWriteOfAbsent(ws, n);
    }
  }

  // ---------------------------------------------------------------------------
  // Single-value settings
  // ---------------------------------------------------------------------------

  /** The shape every enumerated setter shares: validate the key path and the
      value name, then store the canonical spelling of the parsed setting,
      or fail with `invalid` when the input did not parse. */
  function SetParsed(reg: Registry, path: string, name: string, canonical: Option<string>, invalid: string): (r: Update)
    ensures r.status.Ok? <==> ValidKeyPath(path) && ValidValueName(name) && canonical.Some?
    ensures r.status.Ok? ==> GetStringValue(r.reg, path, name) == canonical
    ensures r.status.Err? ==> r.reg == reg
    ensures !ValidKeyPath(path) ==> r.status == ValidateKeyPath(path)
    ensures ValidKeyPath(path) && !ValidValueName(name) ==> r.status == ValidateValueName(name)
    ensures ValidKeyPath(path) && ValidValueName(name) && canonical.None? ==> r.status == Err(Validation(invalid))
    ensures Untouched(reg, r.reg, path, name)
  {
    match ValidateKeyPath(path)
    case Err(e) => Update(reg, Err(e))
    case Ok(_) =>
      match ValidateValueName(name)
      case Err(e) => Update(reg, Err(e))
      case Ok(_) =>
        match canonical
        case None => Update(reg, Err(Validation(invalid)))
        case Some(text) => Update(SetStringValue(reg, path, name, text), Ok(()))
  }

  function GetWindowsVersion(reg: Registry): (r: Option<string>)
    ensures forall t :: r == Some(t) <==> HoldsText(GetValue(reg, WinePath, "Version"), t)
  {
    GetStringValue(reg, WinePath, "Version")
  }

  /** `set_windows_version`: accepts exactly the names `from_string`
      recognises and stores the canonical one. */
  function SetWindowsVersion(reg: Registry, version: string): (r: Update)
    ensures r.status.Ok? <==> WindowsVersionFromString(version).Some?
    ensures r.status.Ok? ==>
      GetWindowsVersion(r.reg) == Some(WindowsVersionToString(WindowsVersionFromString(version).value))
    ensures r.status.Err? ==> r.reg == reg && r.status == Err(Validation("Invalid Windows version: " + version))
    ensures Untouched(reg, r.reg, WinePath, "Version")
  {
    var parsed := WindowsVersionFromString(version);
    EditorPathsValidity();
    PlainNameIsValid("Version");
    SetParsed(reg, WinePath, "Version",
      if parsed.Some? then Some(WindowsVersionToString(parsed.value)) else None,
      "Invalid Windows version: " + version)
  }

  function GetD3DRenderer(reg: Registry): (r: Option<string>)
    ensures forall t :: r == Some(t) <==> HoldsText(GetValue(reg, Direct3DPath, "renderer"), t)
  {
    GetStringValue(reg, Direct3DPath, "renderer")
  }

  /** `set_d3d_renderer`. */
  function SetD3DRenderer(reg: Registry, renderer: string): (r: Update)
    ensures r.status.Ok? <==> D3DRendererFromString(renderer).Some?
    ensures r.status.Ok? ==>
      GetD3DRenderer(r.reg) == Some(D3DRendererToString(D3DRendererFromString(renderer).value))
    ensures r.status.Err? ==> r.reg == reg && r.status == Err(Validation("Invalid Direct3D renderer: " + renderer))
    ensures Untouched(reg, r.reg, Direct3DPath, "renderer")
  {
    var parsed := D3DRendererFromString(renderer);
    EditorPathsValidity();
    PlainNameIsValid("renderer");
    SetParsed(reg, Direct3DPath, "renderer",
      if parsed.Some? then Some(D3DRendererToString(parsed.value)) else None,
      "Invalid Direct3D renderer: " + renderer)
  }

  /** The `no3d` alias is accepted but stored as `gdi`. */
  lemma No3dIsStoredAsGdi(reg: Registry)
    ensures SetD3DRenderer(reg, "no3d").status.Ok?
    ensures GetD3DRenderer(SetD3DRenderer(reg, "no3d").reg) == Some("gdi")
  {
  }

  function GetD3DCsmt(reg: Registry): (r: Option<u32>)
    ensures forall n: u32 :: r == Some(n) <==> GetValue(reg, Direct3DPath, "csmt") == Some(Dword(n))
  {
    GetDwordValue(reg, Direct3DPath, "csmt")
  }

  /** `set_d3d_csmt`: stores 1 or 0. */
  function SetD3DCsmt(reg: Registry, enabled: bool): (r: Update)
    ensures r.status.Ok?
    ensures GetD3DCsmt(r.reg) == Some(if enabled then 1 else 0)
    ensures Untouched(reg, r.reg, Direct3DPath, "csmt")
  {
    EditorPathsValidity();
    match ValidateKeyPath(Direct3DPath)
    case Err(e) => Update(reg, Err(e))
    case Ok(_) =>
      PlainNameIsValid("csmt");
      match ValidateValueName("csmt")
      case Err(e) => Update(reg, Err(e))
      case Ok(_) => Update(SetDwordValue(reg, Direct3DPath, "csmt", if enabled then 1 else 0), Ok(()))
  }

  function GetOffscreenRenderingMode(reg: Registry): (r: Option<string>)
    ensures forall t :: r == Some(t) <==> HoldsText(GetValue(reg, Direct3DPath, "OffscreenRenderingMode"), t)
  {
    GetStringValue(reg, Direct3DPath, "OffscreenRenderingMode")
  }

  /** `set_offscreen_rendering_mode`. */
  function SetOffscreenRenderingMode(reg: Registry, mode: string): (r: Update)
    ensures r.status.Ok? <==> OffscreenRenderingModeFromString(mode).Some?
    ensures r.status.Ok? ==>
      GetOffscreenRenderingMode(r.reg)
        == Some(OffscreenRenderingModeToString(OffscreenRenderingModeFromString(mode).value))
    ensures r.status.Err? ==> r.reg == reg && r.status == Err(Validation("Invalid offscreen rendering mode: " + mode))
    ensures Untouched(reg, r.reg, Direct3DPath, "OffscreenRenderingMode")
  {
    var parsed := OffscreenRenderingModeFromString(mode);
    EditorPathsValidity();
    PlainNameIsValid("OffscreenRenderingMode");
    SetParsed(reg, Direct3DPath, "OffscreenRenderingMode",
      if parsed.Some? then Some(OffscreenRenderingModeToString(parsed.value)) else None,
      "Invalid offscreen rendering mode: " + mode)
  }

  function GetMouseWarpOverride(reg: Registry): (r: Option<string>)
    ensures forall t :: r == Some(t) <==> HoldsText(GetValue(reg, DirectInputPath, "MouseWarpOverride"), t)
  {
    GetStringValue(reg, DirectInputPath, "MouseWarpOverride")
  }

  /** `set_mouse_warp_override`. */
  function SetMouseWarpOverride(reg: Registry, mode: string): (r: Update)
    ensures r.status.Ok? <==> MouseWarpOverrideFromString(mode).Some?
    ensures r.status.Ok? ==>
      GetMouseWarpOverride(r.reg) == Some(MouseWarpOverrideToString(MouseWarpOverrideFromString(mode).value))
    ensures r.status.Err? ==> r.reg == reg && r.status == Err(Validation("Invalid mouse warp override: " + mode))
    ensures Untouched(reg, r.reg, DirectInputPath, "MouseWarpOverride")
  {
    var parsed := MouseWarpOverrideFromString(mode);
    EditorPathsValidity();
    PlainNameIsValid("MouseWarpOverride");
    SetParsed(reg, DirectInputPath, "MouseWarpOverride",
      if parsed.Some? then Some(MouseWarpOverrideToString(parsed.value)) else None,
      "Invalid mouse warp override: " + mode)
  }

  /** Setting any value of the four enumerations by its canonical name and
      reading it back yields that value again. */
  lemma EnumSettingsRoundTrip(reg: Registry, w: WindowsVersion, d: D3DRenderer,
                              o: OffscreenRenderingMode, m: MouseWarpOverride)
    ensures WindowsVersionFromString(GetWindowsVersion(SetWindowsVersion(reg, WindowsVersionToString(w)).reg).value) == Some(w)
    ensures D3DRendererFromString(GetD3DRenderer(SetD3DRenderer(reg, D3DRendererToString(d)).reg).value) == Some(d)
    ensures OffscreenRenderingModeFromString(
      GetOffscreenRenderingMode(SetOffscreenRenderingMode(reg, OffscreenRenderingModeToString(o)).reg).value) == Some(o)
    ensures MouseWarpOverrideFromString(
      GetMouseWarpOverride(SetMouseWarpOverride(reg, MouseWarpOverrideToString(m)).reg).value) == Some(m)
  {
  }

  /** `get_audio_driver` reads the value named `""`. */
  function GetAudioDriver(reg: Registry): (r: Option<string>)
    ensures forall t :: r == Some(t) <==> HoldsText(GetValue(reg, AudioPath, ""), t)
  {
    GetStringValue(reg, AudioPath, "")
  }

  /** `set_audio_driver` validates the empty value name it writes under, so it
      fails for every input and changes nothing. */
  function SetAudioDriver(reg: Registry, driver: string): (r: Update)
    ensures r == Update(reg, Err(Validation(ValueNameEmpty)))
  {
    EditorPathsValidity();
    DefaultSlotNameIsValid();
    var parsed := AudioDriverFromString(driver);
    SetParsed(reg, AudioPath, "",
      if parsed.Some? then Some(AudioDriverToString(parsed.value)) else None,
      "Invalid audio driver: " + driver)
  }

  function GetGraphicsDriver(reg: Registry): (r: Option<string>)
    ensures forall t :: r == Some(t) <==> HoldsText(GetValue(reg, GraphicsPath, ""), t)
  {
    GetStringValue(reg, GraphicsPath, "")
  }

  /** `set_graphics_driver`: fails for every input, like the audio setter. */
  function SetGraphicsDriver(reg: Registry, driver: string): (r: Update)
    ensures r == Update(reg, Err(Validation(ValueNameEmpty)))
  {
    EditorPathsValidity();
    DefaultSlotNameIsValid();
    var parsed := GraphicsDriverFromString(driver);
    SetParsed(reg, GraphicsPath, "",
      if parsed.Some? then Some(GraphicsDriverToString(parsed.value)) else None,
      "Invalid graphics driver: " + driver)
  }

  /** Whatever the editor is asked, the driver settings it reports never
      change through its own setters. */
  lemma DriverSettingsAreReadOnly(reg: Registry, audio: AudioDriver, graphics: GraphicsDriver)
    ensures GetAudioDriver(SetAudioDriver(reg, AudioDriverToString(audio)).reg) == GetAudioDriver(reg)
    ensures GetGraphicsDriver(SetGraphicsDriver(reg, GraphicsDriverToString(graphics)).reg) == GetGraphicsDriver(reg)
  {
  }

  function GetVideoMemorySize(reg: Registry): (r: Option<u32>)
    ensures forall n: u32 :: r == Some(n) <==> GetValue(reg, Direct3DPath, "VideoMemorySize") == Some(Dword(n))
  {
    GetDwordValue(reg, Direct3DPath, "VideoMemorySize")
  }

  const VideoMemoryRange: string := "Video memory size must be between 1 and 16384 MB"

  /** `set_video_memory_size`: accepts 1 to 16384 MB. */
  function SetVideoMemorySize(reg: Registry, sizeMb: u32): (r: Update)
    ensures r.status.Ok? <==> 1 <= sizeMb <= 16384
    ensures r.status.Ok? ==> GetVideoMemorySize(r.reg) == Some(sizeMb)
    ensures r.status.Err? ==> r == Update(reg, Err(Validation(VideoMemoryRange)))
    ensures Untouched(reg, r.reg, Direct3DPath, "VideoMemorySize")
  {
    EditorPathsValidity();
    match ValidateKeyPath(Direct3DPath)
    case Err(e) => Update(reg, Err(e))
    case Ok(_) =>
      PlainNameIsValid("VideoMemorySize");
      match ValidateValueName("VideoMemorySize")
      case Err(e) => Update(reg, Err(e))
      case Ok(_) =>
        if sizeMb == 0 || sizeMb > 16384 then Update(reg, Err(Validation(VideoMemoryRange)))
        else Update(SetDwordValue(reg, Direct3DPath, "VideoMemorySize", sizeMb), Ok(()))
  }
}
