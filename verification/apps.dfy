/** Per-application settings of the registry editor
    (`src/prefix/regeditor/editor.rs`): the key `Software\Wine\AppDefaults\<app>`
    with its `DllOverrides` and `Direct3D` subkeys.  Keys are stored flat, so
    a subkey exists independently of the application's own key. */
module Apps {
  import opened Common
  import opened Strings
  import opened Keys
  import opened Store
  import opened Editor
  import opened Lists

  function AppPath(app: string): string {
    AppDefaultsPath + app
  }

  function AppDllPath(app: string): string {
    AppPath(app) + "\\DllOverrides"
  }

  function AppD3DPath(app: string): string {
    AppPath(app) + "\\Direct3D"
  }

  /** The application key and its two subkeys are three different keys. */
  lemma AppPathsDistinct(app: string)
    ensures AppPath(app) != AppDllPath(app) && AppPath(app) != AppD3DPath(app) && AppDllPath(app) != AppD3DPath(app)
  {
    assert |AppDllPath(app)| == |AppPath(app)| + 13;
    assert |AppD3DPath(app)| == |AppPath(app)| + 9;
  }

  const RendererName: string := "renderer"
  const OffscreenName: string := "OffscreenRenderingMode"

  lemma AppNamesValid()
    ensures ValidValueName(RendererName) && ValidValueName(OffscreenName)
  {
    PlainNameIsValid(RendererName);
    PlainNameIsValid(OffscreenName);
  }

  /** The application's Direct3D renderer: a string value that parses. */
  function AppRenderer(reg: Registry, app: string): Option<D3DRenderer> {
    match GetStringValue(reg, AppD3DPath(app), RendererName)
    case Some(text) => D3DRendererFromString(text)
    case None => None
  }

  /** The application's offscreen rendering mode: a string value that parses. */
  function AppOffscreen(reg: Registry, app: string): Option<OffscreenRenderingMode> {
    match GetStringValue(reg, AppD3DPath(app), OffscreenName)
    case Some(text) => OffscreenRenderingModeFromString(text)
    case None => None
  }

  /** `get_app_settings`: `None` exactly when the application's own key does
      not exist; otherwise the overrides listed under its `DllOverrides`
      subkey and the renderer and offscreen mode of its `Direct3D` subkey.
      Custom settings and desktop settings are never read back. */
  function GetAppSettings(reg: Registry, app: string): (r: Option<AppSettings>)
    ensures r.None? <==> !KeyExists(reg, AppPath(app))
    ensures r.Some? ==> r.value.name == app && r.value.customSettings == map[] && r.value.desktopSettings.None?
    ensures r.Some? ==> forall d :: d in r.value.dllOverrides <==> StoredDll(reg, AppDllPath(app), d.dll) == Some(d.setting)
    ensures r.Some? ==> StrictlyAscending(DllNames(r.value.dllOverrides))
    ensures r.Some? ==> r.value.d3dRenderer == AppRenderer(reg, app)
    ensures r.Some? ==> r.value.offscreenRenderingMode == AppOffscreen(reg, app)
  {
    if !KeyExists(reg, AppPath(app)) then None
    else
      var settings := NewAppSettings(app);
      Some(settings.(dllOverrides := DllOverridesAt(reg, AppDllPath(app)),
                     d3dRenderer := AppRenderer(reg, app),
                     offscreenRenderingMode := AppOffscreen(reg, app)))
  }

  // ---------------------------------------------------------------------------
  // The three write steps of set_app_settings
  // ---------------------------------------------------------------------------

  function DllWrites(dlls: seq<DllOverride>): (ws: seq<Write>)
    ensures |ws| == |dlls|
    ensures forall i :: 0 <= i < |ws| ==> ws[i] == Write(dlls[i].dll, Some(Sz(DllOverrideSettingToString(dlls[i].setting))))
  {
    seq(|dlls|, i requires 0 <= i < |dlls| => Write(dlls[i].dll, Some(Sz(DllOverrideSettingToString(dlls[i].setting)))))
  }

  function D3DWrites(s: AppSettings): seq<Write> {
    [Write(RendererName, if s.d3dRenderer.Some? then Some(Sz(D3DRendererToString(s.d3dRenderer.value))) else None),
     Write(OffscreenName, if s.offscreenRenderingMode.Some?
                          then Some(Sz(OffscreenRenderingModeToString(s.offscreenRenderingMode.value))) else None)]
  }

  function CustomWrites(custom: map<string, string>, names: seq<string>): (ws: seq<Write>)
    requires forall i :: 0 <= i < |names| ==> names[i] in custom
    ensures |ws| == |names|
    ensures forall i :: 0 <= i < |ws| ==> ws[i] == Write(names[i], Some(Sz(custom[names[i]])))
  {
    seq(|names|, i requires 0 <= i < |names| => Write(names[i], Some(Sz(custom[names[i]]))))
  }

  /** The setting the last override of `dll` in the list asks for. */
  function LastSetting(dlls: seq<DllOverride>, dll: string): Option<DllOverrideSetting>
    decreases |dlls|
  {
    if |dlls| == 0 then None
    else if dlls[|dlls| - 1].dll == dll then Some(dlls[|dlls| - 1].setting)
    else LastSetting(dlls[..|dlls| - 1], dll)
  }

  lemma {:induction false} LastWriteSnoc(ws: seq<Write>, w: Write, n: string)
    ensures LastWrite(ws + [w], n) == if w.name == n && w.value.Some? then w.value else LastWrite(ws, n)
    decreases |ws|
  {
    if |ws| == 0 {
      assert LastWrite([w][1..], n) == None;
    } else {
      assert (ws + [w])[1..] == ws[1..] + [w];
      LastWriteSnoc(ws[1..], w, n);
    }
  }

  /** The last write to a DLL's name stores the last override's setting. */
  lemma {:induction false} DllLastWrite(dlls: seq<DllOverride>, dll: string)
    ensures LastWrite(DllWrites(dlls), dll)
      == if LastSetting(dlls, dll).Some? then Some(Sz(DllOverrideSettingToString(LastSetting(dlls, dll).value))) else None
    decreases |dlls|
  {
    if |dlls| > 0 {
      var init := dlls[..|dlls| - 1];
      DllLastWrite(init, dll);
      assert DllWrites(dlls) == DllWrites(init) + [DllWrites(dlls)[|dlls| - 1]];
      LastWriteSnoc(DllWrites(init), DllWrites(dlls)[|dlls| - 1], dll);
    }
  }

  predicate DllNamesValid(dlls: seq<DllOverride>) {
    forall i :: 0 <= i < |dlls| ==> ValidValueName(dlls[i].dll)
  }

  /** The DLL step stores each DLL's last override, or stops at the first
      invalid DLL name. */
  lemma DllWritesEffect(reg: Registry, path: string, dlls: seq<DllOverride>, u: Update)
    requires u == WriteAll(reg, path, DllWrites(dlls))
    ensures u.status.Ok? <==> DllNamesValid(dlls)
    ensures u.status.Err? ==> exists i :: 0 <= i < |dlls| && u.status == ValidateValueName(dlls[i].dll)
    ensures u.status.Ok? ==>
      forall d :: StoredDll(u.reg, path, d) == Overlay(LastSetting(dlls, d), StoredDll(reg, path, d))
  {
    var ws := DllWrites(dlls);
    if u.status.Err? {
      var i := FirstInvalidWrite(ws).value;
      assert u.status == ValidateValueName(dlls[i].dll);
    } else {
      assert ws[..Performed(ws)] == ws;
      forall d ensures StoredDll(u.reg, path, d) == Overlay(LastSetting(dlls, d), StoredDll(reg, path, d)) {
        WriteAllStoresAt(reg, path, ws, d);
        DllLastWrite(dlls, d);
      }
    }
  }

  /** The Direct3D step always succeeds and stores the present fields. */
  lemma D3DWritesEffect(reg: Registry, app: string, s: AppSettings, u: Update)
    requires u == WriteAll(reg, AppD3DPath(app), D3DWrites(s))
    ensures u.status.Ok?
    ensures AppRenderer(u.reg, app) == Overlay(s.d3dRenderer, AppRenderer(reg, app))
    ensures AppOffscreen(u.reg, app) == Overlay(s.offscreenRenderingMode, AppOffscreen(reg, app))
  {
    AppNamesValid();
    var ws := D3DWrites(s);
    WriteDistinctGroup(reg, AppD3DPath(app), ws);
    assert GetValue(u.reg, AppD3DPath(app), RendererName) == Overlay(ws[0].value, GetValue(reg, AppD3DPath(app), RendererName));
    assert GetValue(u.reg, AppD3DPath(app), OffscreenName) == Overlay(ws[1].value, GetValue(reg, AppD3DPath(app), OffscreenName));
  }

  /** The custom-settings step stores every entry, or stops at the first
      invalid name in ascending order. */
  lemma CustomWritesEffect(reg: Registry, path: string, custom: map<string, string>, names: seq<string>, u: Update)
    requires ListsKeys(names, custom)
    requires u == WriteAll(reg, path, CustomWrites(custom, names))
    ensures u.status.Ok? <==> forall k :: k in custom ==> ValidValueName(k)
    ensures u.status.Err? ==> exists k :: k in custom && u.status == ValidateValueName(k)
    ensures u.status.Ok? ==> forall k :: k in custom ==> GetValue(u.reg, path, k) == Some(Sz(custom[k]))
    ensures custom == map[] ==> u == Update(reg, Ok(()))
  {
    CustomWritesStatus(reg, path, custom, names, u);
    if u.status.Ok? {
      CustomWritesStore(reg, path, custom, names, u);
    }
  }

  lemma CustomWritesStatus(reg: Registry, path: string, custom: map<string, string>, names: seq<string>, u: Update)
    requires ListsKeys(names, custom)
    requires u == WriteAll(reg, path, CustomWrites(custom, names))
    ensures u.status.Ok? <==> forall k :: k in custom ==> ValidValueName(k)
    ensures u.status.Err? ==> exists k :: k in custom && u.status == ValidateValueName(k)
    ensures custom == map[] ==> u == Update(reg, Ok(()))
  {
    var ws := CustomWrites(custom, names);
    if u.status.Err? {
      var i := FirstInvalidWrite(ws).value;
      assert names[i] in custom;
    } else {
      forall k | k in custom ensures ValidValueName(k) {
        var i :| 0 <= i < |names| && names[i] == k;
        assert ws[i].name == k;
      }
    }
    if custom == map[] {
      assert |names| == 0;
    }
  }

  lemma CustomWritesStore(reg: Registry, path: string, custom: map<string, string>, names: seq<string>, u: Update)
    requires ListsKeys(names, custom)
    requires u == WriteAll(reg, path, CustomWrites(custom, names))
    requires u.status.Ok?
    ensures forall k :: k in custom ==> GetValue(u.reg, path, k) == Some(Sz(custom[k]))
  {
    var ws := CustomWrites(custom, names);
    assert DistinctNames(ws);
    assert WritesValid(ws);
    WriteDistinctGroup(reg, path, ws);
    forall k | k in custom ensures GetValue(u.reg, path, k) == Some(Sz(custom[k])) {
      var i :| 0 <= i < |names| && names[i] == k;
      assert ws[i] == Write(k, Some(Sz(custom[k])));
    }
  }

  /** A sequence of steps that stops at the first failure. */
  function Sequenced(u1: Update, u2: Update, u3: Update): Update {
    if u1.status.Err? then u1 else if u2.status.Err? then u2 else u3
  }

  predicate CustomNamesValid(custom: map<string, string>) {
    forall k :: k in custom ==> ValidValueName(k)
  }

  /** `set_app_settings`: writes the DLL overrides into the `DllOverrides`
      subkey, then the renderer and offscreen mode into the `Direct3D`
      subkey, then the custom settings (in ascending name order) into the
      application's own key.  An invalid DLL or custom-setting name stops the
      call with its validation error, keeping the writes made before it. */
  function SetAppSettings(reg: Registry, app: string, s: AppSettings): (r: Update)
    ensures r.status.Ok? <==> DllNamesValid(s.dllOverrides) && CustomNamesValid(s.customSettings)
    ensures r.status.Err? ==>
      (exists i :: 0 <= i < |s.dllOverrides| && r.status == ValidateValueName(s.dllOverrides[i].dll))
      || (exists k :: k in s.customSettings && r.status == ValidateValueName(k))
    ensures r.status.Ok? ==> forall d ::
      StoredDll(r.reg, AppDllPath(app), d) == Overlay(LastSetting(s.dllOverrides, d), StoredDll(reg, AppDllPath(app), d))
    ensures r.status.Ok? ==> AppRenderer(r.reg, app) == Overlay(s.d3dRenderer, AppRenderer(reg, app))
    ensures r.status.Ok? ==> AppOffscreen(r.reg, app) == Overlay(s.offscreenRenderingMode, AppOffscreen(reg, app))
    ensures r.status.Ok? ==> forall k :: k in s.customSettings ==> GetValue(r.reg, AppPath(app), k) == Some(Sz(s.customSettings[k]))
    ensures forall p, n :: p != AppPath(app) && p != AppDllPath(app) && p != AppD3DPath(app) ==>
      GetValue(r.reg, p, n) == GetValue(reg, p, n)
    ensures s.customSettings == map[] ==> (KeyExists(r.reg, AppPath(app)) <==> KeyExists(reg, AppPath(app)))
    ensures KeyExists(reg, AppPath(app)) ==> KeyExists(r.reg, AppPath(app))
  {
    EditorPathsValidity();
    match ValidateKeyPath(AppPath(app))
    case Err(e) => Update(reg, Err(e))
    case Ok(_) =>
      var names := Ascending(s.customSettings.Keys);
      AscendingListsKeys(s.customSettings);
      var u1 := WriteAll(reg, AppDllPath(app), DllWrites(s.dllOverrides));
      var u2 := WriteAll(u1.reg, AppD3DPath(app), D3DWrites(s));
      var u3 := WriteAll(u2.reg, AppPath(app), CustomWrites(s.customSettings, names));
      AppStepsStatus(reg, app, s, names, u1, u2, u3);
      AppStepsFrame(reg, app, s, names, u1, u2, u3);
      AppStepsStore(reg, app, s, names, u1, u2, u3);
      Sequenced(u1, u2, u3)
  }

  /** Whether the three steps succeed, and which error stops them. */
  lemma AppStepsStatus(reg: Registry, app: string, s: AppSettings, names: seq<string>, u1: Update, u2: Update, u3: Update)
    requires ListsKeys(names, s.customSettings)
    requires u1 == WriteAll(reg, AppDllPath(app), DllWrites(s.dllOverrides))
    requires u2 == WriteAll(u1.reg, AppD3DPath(app), D3DWrites(s))
    requires u3 == WriteAll(u2.reg, AppPath(app), CustomWrites(s.customSettings, names))
    ensures u2.status.Ok?
    ensures Sequenced(u1, u2, u3).status.Ok? <==> DllNamesValid(s.dllOverrides) && CustomNamesValid(s.customSettings)
    ensures Sequenced(u1, u2, u3).status.Err? ==>
      (exists i :: 0 <= i < |s.dllOverrides| && Sequenced(u1, u2, u3).status == ValidateValueName(s.dllOverrides[i].dll))
      || (exists k :: k in s.customSettings && Sequenced(u1, u2, u3).status == ValidateValueName(k))
  {
    DllWritesEffect(reg, AppDllPath(app), s.dllOverrides, u1);
    D3DWritesEffect(u1.reg, app, s, u2);
    CustomWritesEffect(u2.reg, AppPath(app), s.customSettings, names, u3);
  }

  /** What the three steps leave in the three keys when all succeed. */
  lemma AppStepsStore(reg: Registry, app: string, s: AppSettings, names: seq<string>, u1: Update, u2: Update, u3: Update)
    requires ListsKeys(names, s.customSettings)
    requires u1 == WriteAll(reg, AppDllPath(app), DllWrites(s.dllOverrides))
    requires u2 == WriteAll(u1.reg, AppD3DPath(app), D3DWrites(s))
    requires u3 == WriteAll(u2.reg, AppPath(app), CustomWrites(s.customSettings, names))
    ensures u1.status.Ok? && u3.status.Ok? ==> forall d :: StoredDll(u3.reg, AppDllPath(app), d) == Overlay(LastSetting(s.dllOverrides, d), StoredDll(reg, AppDllPath(app), d))
    ensures AppRenderer(u3.reg, app) == Overlay(s.d3dRenderer, AppRenderer(reg, app))
    ensures AppOffscreen(u3.reg, app) == Overlay(s.offscreenRenderingMode, AppOffscreen(reg, app))
    ensures u3.status.Ok? ==> forall k :: k in s.customSettings ==> GetValue(u3.reg, AppPath(app), k) == Some(Sz(s.customSettings[k]))
  {
    AppStoreDlls(reg, app, s, names, u1, u2, u3);
    AppStoreD3D(reg, app, s, names, u1, u2, u3);
    CustomWritesEffect(u2.reg, AppPath(app), s.customSettings, names, u3);
  }

  /** The DLL overrides written by the first step survive the other two. */
  lemma AppStoreDlls(reg: Registry, app: string, s: AppSettings, names: seq<string>, u1: Update, u2: Update, u3: Update)
    requires ListsKeys(names, s.customSettings)
    requires u1 == WriteAll(reg, AppDllPath(app), DllWrites(s.dllOverrides))
    requires u2 == WriteAll(u1.reg, AppD3DPath(app), D3DWrites(s))
    requires u3 == WriteAll(u2.reg, AppPath(app), CustomWrites(s.customSettings, names))
    ensures u1.status.Ok? ==> forall d :: StoredDll(u3.reg, AppDllPath(app), d) == Overlay(LastSetting(s.dllOverrides, d), StoredDll(reg, AppDllPath(app), d))
  {
    AppPathsDistinct(app);
    DllWritesEffect(reg, AppDllPath(app), s.dllOverrides, u1);
    DllKeyFrame(u1.reg, u2.reg, AppDllPath(app));
    DllKeyFrame(u2.reg, u3.reg, AppDllPath(app));
  }

  /** DLL overrides read the same from two registries that agree on the
      key. */
  lemma DllKeyFrame(a: Registry, b: Registry, path: string)
    requires forall n :: GetValue(b, path, n) == GetValue(a, path, n)
    ensures forall d :: StoredDll(b, path, d) == StoredDll(a, path, d)
  {
    forall d ensures StoredDll(b, path, d) == StoredDll(a, path, d) {
      assert GetValue(b, path, d) == GetValue(a, path, d);
    }
  }

  /** The Direct3D values written by the second step survive the third. */
  lemma AppStoreD3D(reg: Registry, app: string, s: AppSettings, names: seq<string>, u1: Update, u2: Update, u3: Update)
    requires ListsKeys(names, s.customSettings)
    requires u1 == WriteAll(reg, AppDllPath(app), DllWrites(s.dllOverrides))
    requires u2 == WriteAll(u1.reg, AppD3DPath(app), D3DWrites(s))
    requires u3 == WriteAll(u2.reg, AppPath(app), CustomWrites(s.customSettings, names))
    ensures AppRenderer(u3.reg, app) == Overlay(s.d3dRenderer, AppRenderer(reg, app))
    ensures AppOffscreen(u3.reg, app) == Overlay(s.offscreenRenderingMode, AppOffscreen(reg, app))
  {
    AppPathsDistinct(app);
    D3DKeyFrame(reg, u1.reg, app);
    D3DWritesEffect(u1.reg, app, s, u2);
    D3DKeyFrame(u2.reg, u3.reg, app);
  }

  /** Renderer and offscreen mode read the same from two registries that
      agree on the `Direct3D` subkey. */
  lemma D3DKeyFrame(a: Registry, b: Registry, app: string)
    requires forall n :: GetValue(b, AppD3DPath(app), n) == GetValue(a, AppD3DPath(app), n)
    ensures AppRenderer(b, app) == AppRenderer(a, app)
    ensures AppOffscreen(b, app) == AppOffscreen(a, app)
  {
    assert GetValue(b, AppD3DPath(app), RendererName) == GetValue(a, AppD3DPath(app), RendererName);
    assert GetValue(b, AppD3DPath(app), OffscreenName) == GetValue(a, AppD3DPath(app), OffscreenName);
  }

  /** Each step only writes its own key; the application's key comes into
      existence only through a custom setting. */
  lemma AppStepsFrame(reg: Registry, app: string, s: AppSettings, names: seq<string>, u1: Update, u2: Update, u3: Update)
    requires ListsKeys(names, s.customSettings)
    requires u1 == WriteAll(reg, AppDllPath(app), DllWrites(s.dllOverrides))
    requires u2 == WriteAll(u1.reg, AppD3DPath(app), D3DWrites(s))
    requires u3 == WriteAll(u2.reg, AppPath(app), CustomWrites(s.customSettings, names))
    ensures forall p, n :: p != AppPath(app) && p != AppDllPath(app) && p != AppD3DPath(app) ==>
      GetValue(u1.reg, p, n) == GetValue(reg, p, n) && GetValue(u2.reg, p, n) == GetValue(reg, p, n) && GetValue(u3.reg, p, n) == GetValue(reg, p, n)
    ensures s.customSettings == map[] ==>
      (KeyExists(u1.reg, AppPath(app)) <==> KeyExists(reg, AppPath(app)))
      && (KeyExists(u2.reg, AppPath(app)) <==> KeyExists(reg, AppPath(app)))
      && (KeyExists(u3.reg, AppPath(app)) <==> KeyExists(reg, AppPath(app)))
    ensures KeyExists(reg, AppPath(app)) ==>
      KeyExists(u1.reg, AppPath(app)) && KeyExists(u2.reg, AppPath(app)) && KeyExists(u3.reg, AppPath(app))
  {
    AppPathsDistinct(app);
    if s.customSettings == map[] {
      assert |names| == 0;
    }
  }

  // ---------------------------------------------------------------------------
  // Reading back what was written
  // ---------------------------------------------------------------------------

  /** Once the application's key exists, or a custom setting creates it,
      `get_app_settings` returns the renderer and offscreen mode just written
      (or the earlier ones where the settings left them out) and, for every
      DLL, the last override written for it (or the earlier one).  The
      custom settings are stored but never read back. */
  lemma AppSettingsRoundTrip(reg: Registry, app: string, s: AppSettings)
    requires SetAppSettings(reg, app, s).status.Ok?
    requires KeyExists(reg, AppPath(app)) || s.customSettings != map[]
    ensures var g := GetAppSettings(SetAppSettings(reg, app, s).reg, app);
      g.Some? && g.value.name == app
      && g.value.d3dRenderer == Overlay(s.d3dRenderer, AppRenderer(reg, app))
      && g.value.offscreenRenderingMode == Overlay(s.offscreenRenderingMode, AppOffscreen(reg, app))
      && (forall d :: d in g.value.dllOverrides <==>
            Overlay(LastSetting(s.dllOverrides, d.dll), StoredDll(reg, AppDllPath(app), d.dll)) == Some(d.setting))
      && g.value.customSettings == map[]
  {
    var after := SetAppSettings(reg, app, s).reg;
    if !KeyExists(reg, AppPath(app)) {
      var k :| k in s.customSettings;
      assert GetValue(after, AppPath(app), k).Some?;
    }
  }

  /** Settings without custom entries never create the application's key:
      written to an application that has no key, they stay invisible to
      `get_app_settings`. */
  lemma AppSettingsWithoutCustomStayHidden(reg: Registry, app: string, s: AppSettings)
    requires !KeyExists(reg, AppPath(app)) && s.customSettings == map[]
    ensures GetAppSettings(SetAppSettings(reg, app, s).reg, app).None?
  {
  }

  /** `AppSettings::new` carries no override, renderer, offscreen mode or
      custom entry, so setting it succeeds and writes nothing at all. */
  lemma FreshAppSettingsWriteNothing(reg: Registry, app: string)
    ensures SetAppSettings(reg, app, NewAppSettings(app)) == Update(reg, Ok(()))
  {
    var s := NewAppSettings(app);
    EditorPathsValidity();
    var names := Ascending(s.customSettings.Keys);
    assert |names| == 0;
    assert NoWrites(DllWrites(s.dllOverrides));
    assert NoWrites(D3DWrites(s));
    assert NoWrites(CustomWrites(s.customSettings, names));
  }

  /** `remove_app_settings`: deletes the application's own key, which leaves
      an empty key behind; the `DllOverrides` and `Direct3D` subkeys are
      separate keys and are kept. */
  function RemoveAppSettings(reg: Registry, app: string): (r: Update)
    ensures r.status.Ok?
    ensures KeyExists(r.reg, AppPath(app))
    ensures forall n :: GetValue(r.reg, AppPath(app), n).None?
    ensures forall p, n :: p != AppPath(app) ==> GetValue(r.reg, p, n) == GetValue(reg, p, n)
    ensures forall p :: p != AppPath(app) ==> (KeyExists(r.reg, p) <==> KeyExists(reg, p))
  {
    EditorPathsValidity();
    match ValidateKeyPath(AppPath(app))
    case Err(e) => Update(reg, Err(e))
    case Ok(_) => Update(DeleteKey(reg, AppPath(app)), Ok(()))
  }

  /** Removing an application's settings does not hide them: the emptied key
      still exists and the subkeys still hold the overrides, renderer and
      offscreen mode, so `get_app_settings` answers as it did before. */
  lemma RemovedAppIsStillFound(reg: Registry, app: string)
    ensures var g := GetAppSettings(RemoveAppSettings(reg, app).reg, app);
      g.Some?
      && g.value.dllOverrides == DllOverridesAt(reg, AppDllPath(app))
      && g.value.d3dRenderer == AppRenderer(reg, app)
      && g.value.offscreenRenderingMode == AppOffscreen(reg, app)
    ensures KeyExists(reg, AppPath(app)) ==>
      GetAppSettings(RemoveAppSettings(reg, app).reg, app) == GetAppSettings(reg, app)
  {
    var after := RemoveAppSettings(reg, app).reg;
    AppPathsDistinct(app);
    DllOverridesAtFrame(after, reg, AppDllPath(app));
    D3DKeyFrame(reg, after, app);
  }
}
