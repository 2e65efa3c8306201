/** The two list-valued settings of the registry editor
    (`src/prefix/regeditor/editor.rs`): font replacements and DLL overrides.
    Each is one key whose value names are the list's keys; the getters list
    the entries whose values decode, in ascending order of value name. */
module Lists {
  import opened Common
  import opened Strings
  import opened Keys
  import opened Store
  import opened Editor

  // ---------------------------------------------------------------------------
  // Font replacements
  // ---------------------------------------------------------------------------

  /** The replacement stored for `original`: only a plain `Sz` value counts
      (an `ExpandSz` value is skipped by the getter). */
  function StoredFont(reg: Registry, original: string): Option<string> {
    match GetValue(reg, FontReplacementsPath, original)
    case Some(Sz(text)) => Some(text)
    case _ => None
  }

  function Originals(fs: seq<FontReplacement>): (names: seq<string>)
    ensures |names| == |fs|
    ensures forall i :: 0 <= i < |fs| ==> names[i] == fs[i].original
  {
    seq(|fs|, i requires 0 <= i < |fs| => fs[i].original)
  }

  /** Prepending the least of a strictly ascending list to an ascending
      selection from the rest keeps it strictly ascending. */
  lemma PrependAscending(names: seq<string>, xs: seq<string>)
    requires |names| > 0
    requires forall i :: 0 <= i < |xs| ==> xs[i] in names[1..]
    ensures StrictlyAscending(names) && StrictlyAscending(xs) ==> StrictlyAscending([names[0]] + xs)
  {
    if StrictlyAscending(names) {
      forall i | 0 <= i < |xs| ensures Le(names[0], xs[i]) && names[0] != xs[i] {
        var k :| 0 <= k < |names[1..]| && names[1..][k] == xs[i];
        assert names[k + 1] == xs[i];
      }
    }
  }

  /** The stored replacements of the listed names, in the order listed. */
  function FontsIn(names: seq<string>, stored: string -> Option<string>): (r: seq<FontReplacement>)
    ensures forall f :: f in r <==> f.original in names && stored(f.original) == Some(f.replacement)
    ensures StrictlyAscending(names) ==> StrictlyAscending(Originals(r))
    decreases |names|
  {
    if |names| == 0 then []
    else
      var rest := FontsIn(names[1..], stored);
      match stored(names[0])
      case Some(text) =>
        PrependAscending(names, Originals(rest));
        assert Originals([FontReplacement(names[0], text)] + rest) == [names[0]] + Originals(rest);
        [FontReplacement(names[0], text)] + rest
      case None => rest
  }

  /** `get_font_replacements`: exactly the names holding an `Sz` value, each
      with its text, in ascending order of original name. */
  function GetFontReplacements(reg: Registry): (r: seq<FontReplacement>)
    ensures forall f :: f in r <==> StoredFont(reg, f.original) == Some(f.replacement)
    ensures StrictlyAscending(Originals(r))
  {
    var names := Ascending(GetKeyValues(reg, FontReplacementsPath).Keys);
    assert forall n :: StoredFont(reg, n).Some? ==> n in names;
    FontsIn(names, n => StoredFont(reg, n))
  }

  /** `add_font_replacement`: validates the original name and stores the
      replacement as an `Sz` value; a rejected name writes nothing. */
  function AddFontReplacement(reg: Registry, original: string, replacement: string): (r: Update)
    ensures r.status.Ok? <==> ValidValueName(original)
    ensures r.status.Err? ==> r == Update(reg, ValidateValueName(original))
    ensures r.status.Ok? ==> StoredFont(r.reg, original) == Some(replacement)
    ensures Untouched(reg, r.reg, FontReplacementsPath, original)
  {
    EditorPathsValidity();
    match ValidateKeyPath(FontReplacementsPath)
    case Err(e) => Update(reg, Err(e))
    case Ok(_) =>
      match ValidateValueName(original)
      case Err(e) => Update(reg, Err(e))
      case Ok(_) => Update(SetStringValue(reg, FontReplacementsPath, original, replacement), Ok(()))
  }

  /** `remove_font_replacement`: validates the name and tombstones its
      value. */
  function RemoveFontReplacement(reg: Registry, original: string): (r: Update)
    ensures r.status.Ok? <==> ValidValueName(original)
    ensures r.status.Err? ==> r == Update(reg, ValidateValueName(original))
    ensures r.status.Ok? ==> GetValue(r.reg, FontReplacementsPath, original) == Some(Delete)
    ensures Untouched(reg, r.reg, FontReplacementsPath, original)
  {
    EditorPathsValidity();
    match ValidateKeyPath(FontReplacementsPath)
    case Err(e) => Update(reg, Err(e))
    case Ok(_) =>
      match ValidateValueName(original)
      case Err(e) => Update(reg, Err(e))
      case Ok(_) => Update(DeleteValue(reg, FontReplacementsPath, original), Ok(()))
  }

  /** Adding a replacement lists it, replaces any earlier replacement of the
      same font, and leaves the other fonts' entries as they were. */
  lemma FontAddedIsListed(reg: Registry, original: string, replacement: string)
    requires ValidValueName(original)
    ensures var after := GetFontReplacements(AddFontReplacement(reg, original, replacement).reg);
      FontReplacement(original, replacement) in after
      && (forall f :: f in after && f.original == original ==> f.replacement == replacement)
      && (forall f: FontReplacement :: f.original != original ==> (f in after <==> f in GetFontReplacements(reg)))
  {
    var u := AddFontReplacement(reg, original, replacement);
    FontsUntouched(reg, u.reg, original);
    FontListFrame(u.reg, reg, original);
  }

  /** Removing a replacement drops it from the list and keeps the rest. */
  lemma FontRemovedIsNotListed(reg: Registry, original: string)
    requires ValidValueName(original)
    ensures var after := GetFontReplacements(RemoveFontReplacement(reg, original).reg);
      (forall f :: f in after ==> f.original != original)
      && (forall f: FontReplacement :: f.original != original ==> (f in after <==> f in GetFontReplacements(reg)))
  {
    var u := RemoveFontReplacement(reg, original);
    assert StoredFont(u.reg, original) == None;
    FontsUntouched(reg, u.reg, original);
    FontListFrame(u.reg, reg, original);
  }

  /** Only the named font's stored replacement can change. */
  lemma FontsUntouched(before: Registry, after: Registry, original: string)
    requires Untouched(before, after, FontReplacementsPath, original)
    ensures forall n :: n != original ==> StoredFont(after, n) == StoredFont(before, n)
  {
    forall n | n != original ensures StoredFont(after, n) == StoredFont(before, n) {
      assert GetValue(after, FontReplacementsPath, n) == GetValue(before, FontReplacementsPath, n);
    }
  }

  /** Registries that store the same replacement for every other font list
      the same entries for those fonts. */
  lemma FontListFrame(a: Registry, b: Registry, original: string)
    requires forall n :: n != original ==> StoredFont(a, n) == StoredFont(b, n)
    ensures forall f: FontReplacement :: f.original != original ==>
      (f in GetFontReplacements(a) <==> f in GetFontReplacements(b))
  {
  }

  // ---------------------------------------------------------------------------
  // DLL overrides
  // ---------------------------------------------------------------------------

  /** The override stored for `dll` under `path`: an `Sz` value whose text
      is one of the recognised spellings. */
  function StoredDll(reg: Registry, path: string, dll: string): Option<DllOverrideSetting> {
    match GetValue(reg, path, dll)
    case Some(Sz(text)) => DllOverrideSettingFromString(text)
    case _ => None
  }

  function DllNames(ds: seq<DllOverride>): (names: seq<string>)
    ensures |names| == |ds|
    ensures forall i :: 0 <= i < |ds| ==> names[i] == ds[i].dll
  {
    seq(|ds|, i requires 0 <= i < |ds| => ds[i].dll)
  }

  /** The decodable overrides of the listed names under `path`, in the
      order listed. */
  function DllsIn(names: seq<string>, stored: string -> Option<DllOverrideSetting>): (r: seq<DllOverride>)
    ensures forall d :: d in r <==> d.dll in names && stored(d.dll) == Some(d.setting)
    ensures StrictlyAscending(names) ==> StrictlyAscending(DllNames(r))
    decreases |names|
  {
    if |names| == 0 then []
    else
      var rest := DllsIn(names[1..], stored);
      match stored(names[0])
      case Some(setting) =>
        PrependAscending(names, DllNames(rest));
        assert DllNames([DllOverride(names[0], setting)] + rest) == [names[0]] + DllNames(rest);
        [DllOverride(names[0], setting)] + rest
      case None => rest
  }

  /** The overrides listed under a key, as `get_dll_overrides` and
      `get_app_settings` read them. */
  function DllOverridesAt(reg: Registry, path: string): (r: seq<DllOverride>)
    ensures forall d :: d in r <==> StoredDll(reg, path, d.dll) == Some(d.setting)
    ensures StrictlyAscending(DllNames(r))
  {
    var names := Ascending(GetKeyValues(reg, path).Keys);
    assert forall n :: StoredDll(reg, path, n).Some? ==> n in names;
    DllsIn(names, n => StoredDll(reg, path, n))
  }

  /** Listing depends only on what the reader returns. */
  lemma {:induction false} DllsInFrame(names: seq<string>, a: string -> Option<DllOverrideSetting>, b: string -> Option<DllOverrideSetting>)
    requires forall n :: a(n) == b(n)
    ensures DllsIn(names, a) == DllsIn(names, b)
    decreases |names|
  {
    if |names| > 0 {
      DllsInFrame(names[1..], a, b);
    }
  }

  /** Two registries that agree on every value under `path` list the same
      overrides there. */
  lemma DllOverridesAtFrame(a: Registry, b: Registry, path: string)
    requires forall n :: GetValue(a, path, n) == GetValue(b, path, n)
    ensures DllOverridesAt(a, path) == DllOverridesAt(b, path)
  {
    assert GetKeyValues(a, path).Keys == GetKeyValues(b, path).Keys;
    DllsInFrame(Ascending(GetKeyValues(a, path).Keys), n => StoredDll(a, path, n), n => StoredDll(b, path, n));
  }

  /** `get_dll_overrides`. */
  function GetDllOverrides(reg: Registry): (r: seq<DllOverride>)
    ensures forall d :: d in r <==> StoredDll(reg, DllOverridesPath, d.dll) == Some(d.setting)
    ensures StrictlyAscending(DllNames(r))
  {
    DllOverridesAt(reg, DllOverridesPath)
  }

  /** `add_dll_override`: validates the DLL name and stores the setting's
      canonical spelling. */
  function AddDllOverride(reg: Registry, dll: string, setting: DllOverrideSetting): (r: Update)
    ensures r.status.Ok? <==> ValidValueName(dll)
    ensures r.status.Err? ==> r == Update(reg, ValidateValueName(dll))
    ensures r.status.Ok? ==> StoredDll(r.reg, DllOverridesPath, dll) == Some(setting)
    ensures Untouched(reg, r.reg, DllOverridesPath, dll)
  {
    EditorPathsValidity();
    match ValidateKeyPath(DllOverridesPath)
    case Err(e) => Update(reg, Err(e))
    case Ok(_) =>
      match ValidateValueName(dll)
      case Err(e) => Update(reg, Err(e))
      case Ok(_) => Update(SetStringValue(reg, DllOverridesPath, dll, DllOverrideSettingToString(setting)), Ok(()))
  }

  /** `remove_dll_override`: validates the name and tombstones its value. */
  function RemoveDllOverride(reg: Registry, dll: string): (r: Update)
    ensures r.status.Ok? <==> ValidValueName(dll)
    ensures r.status.Err? ==> r == Update(reg, ValidateValueName(dll))
    ensures r.status.Ok? ==> GetValue(r.reg, DllOverridesPath, dll) == Some(Delete)
    ensures Untouched(reg, r.reg, DllOverridesPath, dll)
  {
    EditorPathsValidity();
    match ValidateKeyPath(DllOverridesPath)
    case Err(e) => Update(reg, Err(e))
    case Ok(_) =>
      match ValidateValueName(dll)
      case Err(e) => Update(reg, Err(e))
      case Ok(_) => Update(DeleteValue(reg, DllOverridesPath, dll), Ok(()))
  }

  /** Adding an override lists it (replacing any earlier setting of that DLL)
      and keeps the other DLLs' entries. */
  lemma DllAddedIsListed(reg: Registry, dll: string, setting: DllOverrideSetting)
    requires ValidValueName(dll)
    ensures var after := GetDllOverrides(AddDllOverride(reg, dll, setting).reg);
      DllOverride(dll, setting) in after
      && (forall d :: d in after && d.dll == dll ==> d.setting == setting)
      && (forall d: DllOverride :: d.dll != dll ==> (d in after <==> d in GetDllOverrides(reg)))
  {
    var u := AddDllOverride(reg, dll, setting);
    DllsUntouched(reg, u.reg, dll);
    DllListFrame(u.reg, reg, dll);
  }

  /** Removing an override drops it from the list and keeps the rest. */
  lemma DllRemovedIsNotListed(reg: Registry, dll: string)
    requires ValidValueName(dll)
    ensures var after := GetDllOverrides(RemoveDllOverride(reg, dll).reg);
      (forall d :: d in after ==> d.dll != dll)
      && (forall d: DllOverride :: d.dll != dll ==> (d in after <==> d in GetDllOverrides(reg)))
  {
    var u := RemoveDllOverride(reg, dll);
    assert StoredDll(u.reg, DllOverridesPath, dll) == None;
    DllsUntouched(reg, u.reg, dll);
    DllListFrame(u.reg, reg, dll);
  }

  /** Only the named DLL's stored override can change. */
  lemma DllsUntouched(before: Registry, after: Registry, dll: string)
    requires Untouched(before, after, DllOverridesPath, dll)
    ensures forall n :: n != dll ==> StoredDll(after, DllOverridesPath, n) == StoredDll(before, DllOverridesPath, n)
  {
    forall n | n != dll ensures StoredDll(after, DllOverridesPath, n) == StoredDll(before, DllOverridesPath, n) {
      assert GetValue(after, DllOverridesPath, n) == GetValue(before, DllOverridesPath, n);
    }
  }

  /** Registries that store the same override for every other DLL list the
      same entries for those DLLs. */
  lemma DllListFrame(a: Registry, b: Registry, dll: string)
    requires forall n :: n != dll ==> StoredDll(a, DllOverridesPath, n) == StoredDll(b, DllOverridesPath, n)
    ensures forall d: DllOverride :: d.dll != dll ==>
      (d in GetDllOverrides(a) <==> d in GetDllOverrides(b))
  {
  }
}
