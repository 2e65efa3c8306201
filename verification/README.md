# Wine prefix registry editor, modelled in Dafny

This project models the registry subsystem of a Wine prefix manager. The
subsystem sits under `src/prefix/regeditor/`. Next to it the project models
the prefix configuration (`src/prefix/config.rs`) and the pure parts of the
executable scanner (`src/prefix/scanner.rs`).

The model is functional. A registry is an immutable value, each setter maps a
registry to an `Update` (the new registry and a status), and the cache takes
an explicit clock.

| file | module | what it holds |
|---|---|---|
| `common.dfy` | `Common` | `u32`, `Option`, `Result`, the `Overlay` of an optional new value over an old one, the error kinds and their display text |
| `strings.dfy` | `Strings` | substring and prefix tests, ASCII lower-casing, decimal `u32` parsing and printing, `split`, Rust's lexicographic `String` order, and the ascending listing of a set of strings |
| `keys.dfy` | `Keys` | the settings schema: every enum codec, the `WxH` desktop-size codec, the composite settings records |
| `store.dfy` | `Store` | the key/value store: keys in iteration order, typed values with the `Delete` tombstone, the `(default)` slot, `get_value`/`set_value`/`delete_value`/`delete_key`/`find_keys`/`get_key_values`/`key_exists`, and the precedence of `load_from_prefix` |
| `editor.rs` counterparts: `editor.dfy`, `settings.dfy`, `lists.dfy`, `apps.dfy`, `diagnostics.dfy` | `Editor`, `Settings`, `Lists`, `Apps`, `Diagnostics` | key-path and value-name validation, the typed reads and writes, each setting's getter and setter, font replacements and DLL overrides, per-application settings, and the `validate_registry` sweep |
| `cache.dfy` | `Cache` | the in-memory TTL cache |
| `session.dfy` | `Session` | `with_prefix`, `load_registry` and `save_registry` with their cache interaction |
| `config.rs` counterpart: `config.dfy` | `Config` | `PrefixConfig` and its executable list, plus `validate` |
| `scanner.rs` counterpart: `scanner.dfy` | `Scanner` | `should_skip_executable`, `extract_description_from_path`, and the sort-then-dedup step of `scan_prefix` |

Several behaviours of the code are proved as they are written, because they
are easy to miss:

- `set_audio_driver` and `set_graphics_driver` always fail, because they write
  to the empty value name, which validation rejects.
- `set_dpi_settings` always fails, because its key path does not start with
  `Software`.
- `"windows/winSxS"` never matches, because it is compared against a
  lower-cased path.
- A cache entry exactly `ttl` old is still served but is dropped by cleanup.
- Deleting an application's key leaves an empty key behind, so
  `get_app_settings` still finds the application.
- Writes made before a failing name in `set_desktop_settings` and
  `set_app_settings` stay in the registry.

## Model

| member | source | states |
|---|---|---|
| Keys.WindowsVersionToString | src/prefix/regeditor/keys.rs:30-68 | decoding the spelling of any Windows version gives that version back |
| Keys.WindowsVersionCodec | src/prefix/regeditor/keys.rs:30-68 | `from_string` accepts exactly the fourteen spellings `to_string` produces, and distinct versions have distinct spellings |
| Keys.D3DRendererToString | src/prefix/regeditor/keys.rs:79-95 | decoding the spelling of a renderer gives it back |
| Keys.No3dIsNotRoundTripped | src/prefix/regeditor/keys.rs:80-93 | `"no3d"` is accepted as GDI and re-encodes as `"gdi"`, so the string side is lossy |
| Keys.OffscreenRenderingModeToString | src/prefix/regeditor/keys.rs:105-119 | decoding the spelling of an offscreen mode gives it back |
| Keys.MouseWarpOverrideToString | src/prefix/regeditor/keys.rs:130-146 | decoding the spelling of a mouse-warp override gives it back |
| Keys.DllOverrideSettingToString | src/prefix/regeditor/keys.rs:212-232 | decoding the spelling of a DLL override setting gives it back |
| Keys.AudioDriverToString | src/prefix/regeditor/keys.rs:325-345 | decoding the spelling of an audio driver gives it back |
| Keys.GraphicsDriverToString | src/prefix/regeditor/keys.rs:356-372 | decoding the spelling of a graphics driver gives it back |
| Keys.WindowsFloatWhenInactiveToString | src/prefix/regeditor/keys.rs:453-469 | decoding the spelling of a float mode gives it back |
| Keys.DisabledIsEmptyString | src/prefix/regeditor/keys.rs:212-232 | both `Disabled` variants are spelled `""`, and `""` decodes to `Disabled` for both the DLL setting and the audio driver |
| Keys.StringSideRoundTrips | src/prefix/regeditor/keys.rs:30-146 | each string the version, mouse-warp and offscreen decoders accept is that value's canonical spelling; for the renderer this holds for every accepted string except `"no3d"` |
| Keys.DriverStringSideRoundTrips | src/prefix/regeditor/keys.rs:212-469 | each string the DLL-setting, audio, graphics and float-mode decoders accept is the canonical spelling of what it decodes to |
| Keys.DesktopSizeFromString | src/prefix/regeditor/keys.rs:172-180 | parsing succeeds exactly when the text holds exactly one `x` and the texts before and after it both parse as `u32`; the size is then those two numbers |
| Keys.DesktopSizeToString | src/prefix/regeditor/keys.rs:168-180 | the `WxH` spelling of a size parses back to the same size |
| Keys.DesktopSizeStringSideIsLossy | src/prefix/regeditor/keys.rs:168-180 | `"+1x02"` parses to 1×2, which formats as `"1x2"` |
| Store.SlotOf | src/prefix/regeditor/registry.rs:257-261 | every value-name string addresses exactly one slot, the one rendered as that string |
| Store.EmptyNameIsNotDefaultSlot | src/prefix/regeditor/registry.rs:257-261 | `""` is a named slot, `"(default)"` is the default slot, and they differ |
| Store.New | src/prefix/regeditor/registry.rs:24-30 | a new registry has no keys |
| Store.KeyExists | src/prefix/regeditor/registry.rs:411-428 | a key exists exactly when some key path equals the given path |
| Store.GetValue | src/prefix/regeditor/registry.rs:205-237 | absent key gives `None`; otherwise the value in the addressed slot of the first key with that exact path |
| Store.GetKeyValues | src/prefix/regeditor/registry.rs:377-402 | the map holds exactly the names `get_value` finds, with the same values, and is empty for an absent key |
| Store.SetValue | src/prefix/regeditor/registry.rs:248-275 | the slot reads back the stored value; every other slot of every key is unchanged; the key exists afterwards and no other key appears |
| Store.DeleteValue | src/prefix/regeditor/registry.rs:285-312 | the slot holds the `Delete` tombstone; every other slot is unchanged |
| Store.DeleteKey | src/prefix/regeditor/registry.rs:321-340 | the key becomes an empty deleted key that still exists and has no values; other keys are unchanged |
| Store.FindKeys | src/prefix/regeditor/registry.rs:349-368 | a path is listed exactly when that key exists and contains the pattern |
| Store.FindAllKeys | src/prefix/regeditor/registry.rs:349-368 | the empty pattern lists every key path in iteration order |
| Store.LoadFromPrefix | src/prefix/regeditor/registry.rs:104-148 | a parsed `user.reg` wins; otherwise `userdef.reg` when `system.reg` gave no keys; otherwise `system.reg`; it fails with "No valid registry files found" exactly when none parsed |
| Store.LoadIsWholesale | src/prefix/regeditor/registry.rs:104-148 | the loaded registry is the whole content of one parsed file |
| Editor.ValidateKeyPath | src/prefix/regeditor/editor.rs:145-160 | passes exactly the non-empty paths starting with `Software`, with the empty-path or format error otherwise |
| Editor.ValidateValueName | src/prefix/regeditor/editor.rs:163-180 | passes exactly the non-empty names free of `\ / : * ? " < > \|`; otherwise the empty-name error, or the error naming the first bad character |
| Editor.EditorPathsValidity | src/prefix/regeditor/editor.rs:145-160 | every `Software\Wine` key path the editor uses is valid, including every per-application path; `Control Panel\Desktop` is not |
| Editor.GetStringValue | src/prefix/regeditor/editor.rs:101-118 | the text of an `Sz` or `ExpandSz` value, `None` for any other value or none |
| Editor.GetDwordValue | src/prefix/regeditor/editor.rs:127-136 | the number of a `Dword` value, `None` otherwise |
| Editor.SetStringValue | src/prefix/regeditor/editor.rs:121-124 | the string reads back, and nothing else changes |
| Editor.SetDwordValue | src/prefix/regeditor/editor.rs:139-142 | the number reads back, and nothing else changes |
| Editor.GetWindowsVersion | src/prefix/regeditor/editor.rs:209-211 | the text of `Version` under `Software\Wine` (an `Sz` or `ExpandSz`), `None` when it holds anything else or nothing |
| Editor.GetD3DRenderer | src/prefix/regeditor/editor.rs:227-229 | the text of `renderer` under the `Direct3D` key (an `Sz` or `ExpandSz`), `None` when it holds anything else or nothing |
| Editor.GetD3DCsmt | src/prefix/regeditor/editor.rs:245-247 | the number of the `csmt` DWORD under the `Direct3D` key, `None` when it holds anything else or nothing |
| Editor.GetOffscreenRenderingMode | src/prefix/regeditor/editor.rs:260-262 | the text of `OffscreenRenderingMode` under the `Direct3D` key (an `Sz` or `ExpandSz`), `None` when it holds anything else or nothing |
| Editor.GetMouseWarpOverride | src/prefix/regeditor/editor.rs:278-280 | the text of `MouseWarpOverride` under the `DirectInput` key (an `Sz` or `ExpandSz`), `None` when it holds anything else or nothing |
| Editor.GetAudioDriver | src/prefix/regeditor/editor.rs:296-298 | the text of the value named `""` under the audio driver key, which is not its `(default)` slot (an `Sz` or `ExpandSz`), `None` when it holds anything else or nothing |
| Editor.GetGraphicsDriver | src/prefix/regeditor/editor.rs:314-316 | the text of the value named `""` under the graphics driver key, which is not its `(default)` slot (an `Sz` or `ExpandSz`), `None` when it holds anything else or nothing |
| Editor.GetVideoMemorySize | src/prefix/regeditor/editor.rs:457-459 | the number of the `VideoMemorySize` DWORD under the `Direct3D` key, `None` when it holds anything else or nothing |
| Editor.WriteAll | src/prefix/regeditor/editor.rs:361-382 | a run of writes fails exactly when a present write has an invalid name, with the first such name's error; other keys are unchanged |
| Editor.WriteAllStoresAt | src/prefix/regeditor/editor.rs:361-382 | after a run of writes each slot holds the last write to it among those performed before any failure, over its old value |
| Editor.WriteDistinctGroup | src/prefix/regeditor/editor.rs:503-538 | writes to distinct valid names all succeed; each named slot holds its write or its old value; other slots are unchanged |
| Editor.SetWindowsVersion | src/prefix/regeditor/editor.rs:214-224 | succeeds exactly on a recognised version and stores its canonical spelling; otherwise the validation error and no write |
| Editor.SetD3DRenderer | src/prefix/regeditor/editor.rs:232-242 | succeeds exactly on a recognised renderer and stores its canonical spelling; otherwise the validation error and no write |
| Editor.No3dIsStoredAsGdi | src/prefix/regeditor/editor.rs:232-242 | setting the renderer to `"no3d"` succeeds and reads back as `"gdi"` |
| Editor.SetParsed | src/prefix/regeditor/editor.rs:209-224 | the shared parse-then-store step: fails on an invalid key path, then an invalid value name, then an unparsable value, with the matching error and no write; on success the canonical spelling reads back and nothing else changes |
| Editor.SetD3DCsmt | src/prefix/regeditor/editor.rs:250-257 | stores DWORD 1 for on and 0 for off, and nothing else changes |
| Editor.SetOffscreenRenderingMode | src/prefix/regeditor/editor.rs:265-275 | succeeds exactly on a recognised mode and stores its canonical spelling; otherwise the validation error and no write |
| Editor.SetMouseWarpOverride | src/prefix/regeditor/editor.rs:283-293 | succeeds exactly on a recognised override and stores its canonical spelling; otherwise the validation error and no write |
| Editor.EnumSettingsRoundTrip | src/prefix/regeditor/editor.rs:209-293 | for the version, renderer, offscreen mode and mouse-warp override, setting a value's spelling and reading it back decodes to that value |
| Editor.SetAudioDriver | src/prefix/regeditor/editor.rs:301-311 | fails with the empty-value-name error and writes nothing, whatever the driver |
| Editor.SetGraphicsDriver | src/prefix/regeditor/editor.rs:319-329 | fails with the empty-value-name error and writes nothing, whatever the driver |
| Editor.DriverSettingsAreReadOnly | src/prefix/regeditor/editor.rs:296-329 | reading the audio or graphics driver after setting it gives what was there before |
| Editor.SetVideoMemorySize | src/prefix/regeditor/editor.rs:462-474 | succeeds exactly for 1 to 16384 MB and stores the size; otherwise the range error and no write |
| Settings.GetShaderModelSettings | src/prefix/regeditor/editor.rs:477-500 | `None` exactly when none of the six DWORDs is stored; otherwise each field is its stored DWORD |
| Settings.SetShaderModelSettings | src/prefix/regeditor/editor.rs:503-538 | always succeeds; each present field is stored over the old one; values outside the six are unchanged; all-absent settings write nothing |
| Settings.ShaderModelRoundTrip | src/prefix/regeditor/editor.rs:477-538 | when some field is present, reading back after a set gives `Some`, with each field written or, where it was absent, the earlier value |
| Settings.ShaderModelFullRoundTrip | src/prefix/regeditor/editor.rs:477-538 | with every field present, reading back gives exactly the settings written |
| Settings.EncodeFlag | src/prefix/regeditor/editor.rs:738-813 | a flag written with a codec whose two spellings differ decodes back to the same boolean |
| Settings.FlagSpellingsDiffer | src/prefix/regeditor/editor.rs:670-735 | lower-case `n` reads as true for a lenient X11 flag and false for a strict one; `y` is true for the Mac flags but false for `RetinaMode` |
| Settings.FlagGroupWritten | src/prefix/regeditor/editor.rs:738-813 | writing a group of flags succeeds; each flag reads back as written, or as before where absent; values outside the group are unchanged |
| Settings.GetX11DriverSettings | src/prefix/regeditor/editor.rs:670-735 | `None` exactly when none of the ten values is stored as a string; otherwise each flag is decoded with its own codec |
| Settings.SetX11DriverSettings | src/prefix/regeditor/editor.rs:738-813 | always succeeds; each present flag reads back as written, each absent one as before; nothing outside the ten values changes; all-absent settings write nothing |
| Settings.X11DriverRoundTrip | src/prefix/regeditor/editor.rs:670-813 | written to a registry holding no X11 values, the settings read back exactly |
| Settings.GetMacDriverSettings | src/prefix/regeditor/editor.rs:846-890 | `None` exactly when none of the five values is stored; otherwise the flags decoded with `y`/`Y` and the float mode parsed |
| Settings.SetMacDriverSettings | src/prefix/regeditor/editor.rs:893-932 | always succeeds; the four flags and the float mode read back as written over the old values; nothing else changes |
| Settings.MacDriverRoundTrip | src/prefix/regeditor/editor.rs:846-932 | written to a registry holding no Mac driver values, the settings read back exactly |
| Settings.GetDpiSettings | src/prefix/regeditor/editor.rs:816-825 | `Some` exactly when `LogPixels` is a stored DWORD, carrying that number |
| Settings.SetDpiSettings | src/prefix/regeditor/editor.rs:828-843 | fails with the key-path format error for `Control Panel\Desktop` and writes nothing, whatever the settings |
| Settings.GetDesktopSettings | src/prefix/regeditor/editor.rs:332-358 | always `Some`; `ShowSystray` is on unless it is stored as 0; the desktops are exactly the names whose value parses as a size |
| Settings.SetDesktopSettings | src/prefix/regeditor/editor.rs:361-382 | `Desktop` and `ShowSystray` are written even when it fails; it fails exactly when a desktop name is invalid, with that name's error; on success every desktop size is stored and other names keep theirs; keys other than the two are unchanged |
| Settings.DesktopSettingsRoundTrip | src/prefix/regeditor/editor.rs:332-382 | after a set, `Desktop` and `ShowSystray` read back, and on success every written desktop reads back with its size |
| Settings.DesktopsStored | src/prefix/regeditor/editor.rs:361-382 | after the desktop writes, each written name holds its size and every other name keeps its size |
| Settings.GetVirtualDesktop | src/prefix/regeditor/editor.rs:541-557 | `Some` exactly when `Desktop` names a desktop whose size parses; then enabled with that size |
| Settings.SetVirtualDesktop | src/prefix/regeditor/editor.rs:560-582 | always succeeds. Enabling makes `get_virtual_desktop` return the same settings, sets `Desktop` to `Default`, stores the size under `Default`, turns the systray off, and leaves the other desktops and all other keys unchanged. Disabling makes it return `None` and touches only `Desktop` |
| Settings.FreshShaderSettingsWriteNothing | src/prefix/regeditor/keys.rs:246-257 | a fresh shader-model record has every field unset, so its setter succeeds and writes nothing |
| Settings.FreshX11SettingsWriteNothing | src/prefix/regeditor/keys.rs:390-405 | a fresh X11 record has every field unset, so its setter writes nothing and a registry without X11 settings still reads as having none |
| Settings.FreshMacSettingsWriteNothing | src/prefix/regeditor/keys.rs:433-443 | a fresh Mac driver record has every field unset, so its setter succeeds and writes nothing |
| Settings.DpiConstructorsAsRead | src/prefix/regeditor/keys.rs:413-421 | `get_dpi_settings` never returns `DpiSettings::new()`, and returns `new_with_dpi(d)` exactly when `LogPixels` holds the DWORD `d` |
| Lists.GetFontReplacements | src/prefix/regeditor/editor.rs:385-399 | lists exactly the names holding an `Sz` value, each with its text, in strictly ascending order |
| Lists.AddFontReplacement | src/prefix/regeditor/editor.rs:402-408 | succeeds exactly for a valid name and stores the replacement; a rejected name writes nothing |
| Lists.RemoveFontReplacement | src/prefix/regeditor/editor.rs:411-417 | succeeds exactly for a valid name and tombstones it; a rejected name writes nothing |
| Lists.FontAddedIsListed | src/prefix/regeditor/editor.rs:385-408 | after adding, the pair is listed, no other replacement for that font is listed, and the other fonts' entries are as before |
| Lists.FontRemovedIsNotListed | src/prefix/regeditor/editor.rs:385-417 | after removing, no entry for that font is listed and the other fonts' entries are as before |
| Lists.DllOverridesAt | src/prefix/regeditor/editor.rs:420-436 | lists exactly the names whose `Sz` value decodes as an override setting, in strictly ascending order |
| Lists.DllOverridesAtFrame | src/prefix/regeditor/editor.rs:420-436 | two registries that agree on a key list the same overrides there |
| Lists.GetDllOverrides | src/prefix/regeditor/editor.rs:420-436 | lists exactly the DLLs with a decodable override under `DllOverrides`, each with its setting, in strictly ascending order |
| Lists.AddDllOverride | src/prefix/regeditor/editor.rs:439-445 | succeeds exactly for a valid name and stores the setting's spelling; a rejected name writes nothing |
| Lists.RemoveDllOverride | src/prefix/regeditor/editor.rs:448-454 | succeeds exactly for a valid name and tombstones it; a rejected name writes nothing |
| Lists.DllAddedIsListed | src/prefix/regeditor/editor.rs:420-445 | after adding, the override is listed, it is the only one listed for that DLL, and other DLLs' entries are as before |
| Lists.DllRemovedIsNotListed | src/prefix/regeditor/editor.rs:420-454 | after removing, no override of that DLL is listed and the others are as before |
| Apps.AppPathsDistinct | src/prefix/regeditor/editor.rs:585-659 | an application's key and its `DllOverrides` and `Direct3D` subkeys are three different keys |
| Apps.GetAppSettings | src/prefix/regeditor/editor.rs:585-622 | `None` exactly when the application's key does not exist; otherwise the overrides of its `DllOverrides` subkey and the renderer and offscreen mode of its `Direct3D` subkey, with no custom settings |
| Apps.DllWritesEffect | src/prefix/regeditor/editor.rs:625-640 | the DLL step fails exactly when some DLL name is invalid, with an invalid name's error; on success each DLL holds the last override listed for it, over its old one |
| Apps.D3DWritesEffect | src/prefix/regeditor/editor.rs:641-650 | the Direct3D step always succeeds and stores the present renderer and offscreen mode |
| Apps.CustomWritesEffect | src/prefix/regeditor/editor.rs:651-656 | the custom step fails exactly when some custom name is invalid, with that name's error; on success every custom value is stored |
| Apps.SetAppSettings | src/prefix/regeditor/editor.rs:625-659 | fails exactly when a DLL or custom name is invalid; on success every override, the renderer, the offscreen mode and every custom value read back; keys other than the application's three are unchanged |
| Apps.AppSettingsRoundTrip | src/prefix/regeditor/editor.rs:585-659 | once the application's key exists, reading back after a successful set gives the written renderer, offscreen mode and last override per DLL, over the earlier ones |
| Apps.AppSettingsWithoutCustomStayHidden | src/prefix/regeditor/editor.rs:585-659 | settings without custom entries do not create the application's key, so they stay invisible to `get_app_settings` |
| Apps.FreshAppSettingsWriteNothing | src/prefix/regeditor/keys.rs:284-295 | a fresh application record carries nothing, so setting it succeeds and leaves the registry as it was |
| Apps.RemoveAppSettings | src/prefix/regeditor/editor.rs:662-667 | always succeeds; the application's key is emptied but still exists; every other key is unchanged |
| Apps.RemovedAppIsStillFound | src/prefix/regeditor/editor.rs:585-667 | after removal `get_app_settings` still returns the subkeys' overrides, renderer and offscreen mode, and for an existing application exactly what it returned before |
| Diagnostics.NameProblems | src/prefix/regeditor/editor.rs:947-953 | reports exactly the invalid names of a key, each with its validation message |
| Diagnostics.ValidateRegistry | src/prefix/regeditor/editor.rs:935-959 | an error is reported exactly when a key's path is invalid (one error, its values skipped) or a value name under a valid key is invalid |
| Diagnostics.ValidatesCleanly | src/prefix/regeditor/editor.rs:935-959 | the sweep reports nothing exactly when every key path and every stored value name is valid |
| Diagnostics.DpiKeyIsReported | src/prefix/regeditor/editor.rs:935-959 | once the DPI key exists, the sweep reports its path |
| Diagnostics.GetAllKeys | src/prefix/regeditor/editor.rs:962-964 | lists every key path in order, and a path is listed exactly when that key exists |
| Cache.WithDefaultTtl | src/prefix/regeditor/cache.rs:70-72 | a new default cache is empty with a 300-second time to live |
| Cache.NewCache | src/prefix/regeditor/cache.rs:62-67 | a new cache has the given time to live and serves nothing |
| Cache.IsExpired | src/prefix/regeditor/cache.rs:40-42 | an entry has expired exactly when read after its creation time plus its time to live |
| Cache.GetCachedRegistry | src/prefix/regeditor/cache.rs:115-125 | an entry is served exactly when present and no older than its time to live; serving removes nothing |
| Cache.CacheRegistry | src/prefix/regeditor/cache.rs:128-133 | the new entry is served up to `now + ttl` and not after; other prefixes answer as before |
| Cache.InvalidateCache | src/prefix/regeditor/cache.rs:136-140 | the prefix is no longer served at any time; other prefixes answer as before |
| Cache.ClearAllCache | src/prefix/regeditor/cache.rs:143-147 | no entries remain and nothing is served |
| Cache.CleanupExpired | src/prefix/regeditor/cache.rs:75-89 | keeps exactly the entries younger than their time to live, unchanged |
| Cache.Stats | src/prefix/regeditor/cache.rs:92-109 | the total is the number of entries, expired plus valid is the total, and valid counts the entries `get` would serve |
| Cache.CleanupBoundary | src/prefix/regeditor/cache.rs:40-42 | an entry exactly `ttl` old is served by `get` but dropped by cleanup |
| Cache.CleanupKeepsAnswers | src/prefix/regeditor/cache.rs:75-89 | for entries not at that boundary, cleanup does not change what `get` answers |
| Cache.CleanupLeavesNoExpired | src/prefix/regeditor/cache.rs:75-109 | after cleanup the statistics count no expired entry |
| Cache.BasicOperations | src/prefix/regeditor/cache.rs:173-193 | a cached registry is served and is gone after invalidation |
| Cache.StatsOfTwoEntries | src/prefix/regeditor/cache.rs:196-215 | two fresh entries give two total, two valid and none expired, and clearing leaves none |
| Session.WithPrefix | src/prefix/regeditor/editor.rs:64-88 | a fresh cached registry is used and the cache left alone; otherwise the prefix's files are loaded and, on success, cached; other prefixes are untouched |
| Session.NewEditor | src/prefix/regeditor/editor.rs:47-53 | a new editor holds no key and no prefix |
| Session.GetRegistryPath | src/prefix/regeditor/editor.rs:91-98 | the resolved `user.reg` path, or an invalid-path error displayed as "Invalid path: Invalid prefix path: …" |
| Session.LoadFromFile | src/prefix/regeditor/registry.rs:39-53 | the parsed registry, or "Failed to load registry: …" |
| Session.LoadRegistry | src/prefix/regeditor/editor.rs:186-195 | succeeds exactly when the path resolves and the file reads; then the editor holds that registry and the cache serves it; a failure changes nothing |
| Session.SaveRegistry | src/prefix/regeditor/editor.rs:198-206 | succeeds exactly when the path resolves and the write succeeds; then the prefix is no longer cached; a failure leaves the cache alone |
| Session.CachedRegistryIsStale | src/prefix/regeditor/editor.rs:64-76 | within the time to live, opening a prefix returns the cached registry whatever its files now hold |
| Session.SaveThenReopen | src/prefix/regeditor/editor.rs:64-88 | after a successful save, reopening the prefix reads its files again |
| Session.LoadThenOpen | src/prefix/regeditor/editor.rs:64-88 | after a successful load, opening the prefix within the time to live returns the loaded registry |
| Config.NewExecutable | src/prefix/config.rs:112-119 | a new executable has the given name and path and no description or icon |
| Config.NewConfig | src/prefix/config.rs:26-38 | version `1.0.0`, the given name and architecture, no Wine version or description, no executables |
| Config.AddExecutable | src/prefix/config.rs:63-66 | the executable is appended, the count grows by one, the earlier ones are kept and only the modification time changes otherwise |
| Config.RemoveExecutable | src/prefix/config.rs:68-73 | an index in range removes exactly that executable and keeps the rest in order; any other index leaves the configuration unchanged |
| Config.GetExecutableCount | src/prefix/config.rs:75-77 | the number of registered executables |
| Config.GetExecutableByName | src/prefix/config.rs:79-81 | `None` exactly when no executable has the name; otherwise the first with that exact name |
| Config.AddedExecutableIsFound | src/prefix/config.rs:63-81 | after adding, looking up its name finds the earlier executable of that name if there is one, else the added one |
| Config.RemoveUndoesAdd | src/prefix/config.rs:63-73 | removing the executable just added restores the list |
| Config.Validate | src/prefix/config.rs:83-108 | fails on an empty name, then an empty or unknown architecture, then the first executable with an empty name or a missing path, with the matching message; valid exactly when none applies |
| Config.NewConfigValidity | src/prefix/config.rs:26-108 | a new configuration is valid exactly when it has a name and a known architecture |
| Config.FirstComplaint | src/prefix/config.rs:94-105 | the executable check reports the first executable that fails |
| Config.NamelessExecutableIsRejected | src/prefix/config.rs:63-105 | adding a nameless executable makes any configuration invalid, naming its index when the configuration was valid before |
| Scanner.ShouldSkipExecutable | src/prefix/scanner.rs:168-214 | skips exactly when the lower-cased path contains a skipped directory or the lower-cased file name starts with a skipped prefix |
| Scanner.WinSxSNeverMatches | src/prefix/scanner.rs:175 | the `windows/winSxS` pattern never occurs in a lower-cased path |
| Scanner.PrefixNamesAreSkipped | src/prefix/scanner.rs:193-211 | names that only start with `install` or `update`, such as `installer.exe`, are skipped too |
| Scanner.FileName | src/prefix/scanner.rs:201 | the file name is a non-empty last component without `/` |
| Scanner.Components | src/prefix/scanner.rs:248-250 | a root component exactly when the path starts with `/`, a current-directory component exactly when it is `.` or starts with `./`, only parent and normal components after the first, and every normal name non-empty, not `.` or `..`, and free of `/` |
| Scanner.FileNameIsLastComponent | src/prefix/scanner.rs:248-250 | the file name is the last component when that is a normal one, and absent otherwise |
| Scanner.RepeatedSeparatorsIgnored | src/prefix/scanner.rs:248-250 | `/a//b/` and `/a/b` have the same components, a root and the names `a` and `b` |
| Scanner.ExtractDescriptionFromPath | src/prefix/scanner.rs:246-275 | over the path's components: "Application: X" for the first program-files component followed by a name without "common"; otherwise "Located in: P" for a parent P without "system" or "windows"; otherwise `None` |
| Scanner.SortByName | src/prefix/scanner.rs:73 | the result is a permutation of the input, sorted by name |
| Scanner.SortKeepsEqualNames | src/prefix/scanner.rs:73 | entries that all share a name keep their order |
| Scanner.DedupAdjacent | src/prefix/scanner.rs:74 | the result is a sub-multiset of the input, keeps the first entry and has no two neighbours with the same name and path |
| Scanner.DedupKeepsExactly | src/prefix/scanner.rs:74 | dedup keeps exactly the entries that differ from their left neighbour in name or path, in their original order |
| Scanner.DedupKeepsKeys | src/prefix/scanner.rs:74 | dedup keeps every (name, path) pair that occurs |
| Scanner.DedupKeepsSorted | src/prefix/scanner.rs:74 | dedup of a name-sorted list stays sorted |
| Scanner.ScanOrder | src/prefix/scanner.rs:73-74 | the scan result is sorted by name, has no adjacent duplicates, comes from the found entries and keeps every (name, path) pair |
| Scanner.OnlyNeighboursAreMerged | src/prefix/scanner.rs:73-74 | the same (name, path) entry can survive twice when a different path of the same name sits between the copies |
| Scanner.DedupAlternating | src/prefix/scanner.rs:74 | dedup merges only neighbours, so `[a, b, a]` stays as it is |
| Strings.Ascending | src/prefix/regeditor/editor.rs:385-399 | the listing order used wherever the code iterates a hash map: every element of the set exactly once, in strictly ascending order |
| Strings.NatToStringValue | src/prefix/regeditor/keys.rs:168-170 | the decimal digits written for a number denote that number |
| Strings.ParseU32 | src/prefix/regeditor/keys.rs:174 | `parse::<u32>`: accepts exactly a non-empty run of digits with an optional leading `+` whose value fits in 32 bits, and returns that value |
| Strings.ParseFormatted | src/prefix/regeditor/keys.rs:168-176 | parsing the decimal text of a `u32` gives that number back |

## Left out

- Concurrency is not modelled: `tokio::spawn_blocking`, `tokio::join!`, the `RwLock` and `Arc` sharing. The model is one sequential store, and a clone is the same value. A cached registry is therefore a snapshot taken when it was cached. In the source the cached `WineRegistry` clone shares the editor's `Arc<RwLock<…>>`, so unsaved edits made through an editor show up on a later cache hit; Session.WithPrefix and Session.LoadRegistry do not model that sharing. The "Task join error" and "registry task error" failures therefore cannot occur.
- `.reg` parsing and serialisation are foreign code. A file is modelled as absent, unparsable or parsed to a registry, and a write as succeeding or failing with a reason. This covers `load_from_file`, `save_to_file` and the three reads of `load_from_prefix`.
- `get_registry_path` calls `canonicalize`, which touches the file system. Its outcome is a parameter.
- The debug `println!`/`eprintln!` output of `load_from_prefix` is not modelled. It has no effect on the result.
- Clocks are not modelled. Time is a natural number of nanoseconds passed in; `Instant` subtraction is modelled as saturating.
- `cleanup_expired` runs asynchronously in the source and is modelled as a synchronous step.
- `chrono` timestamps of the configuration are natural numbers passed in.
- JSON persistence of the configuration is not modelled.
- Store.SlotOf: a value literally named `(default)` cannot be stored as a named slot, because `"(default)"` always addresses the default slot.
- Hash-map iteration order is not modelled. Rust leaves it unspecified; the model lists such keys in ascending string order. This affects desktops, custom settings, and the font and DLL listings.
- Lower-casing is ASCII only. Rust's `to_lowercase` also folds non-ASCII letters.
- Paths are strings with `/` separators. `Path::file_name` and `Path::components` are modelled for that form (Scanner.FileName, Scanner.Components): empty pieces and `.` pieces are dropped, except a leading `.`, and `..` is a parent component and never a file name. Windows drive prefixes are not recognised.
- Store.FindKeys: keys are listed in the order they were first added or loaded. The `regashii` crate keeps its own key order, which is foreign code, so the model does not promise the source's order.
- Diagnostics.GetAllKeys: its order is that of Store.FindKeys, for the same reason.
- Diagnostics.ValidateRegistry: the problems are reported key by key in the order of Store.FindKeys, for the same reason.
- Store.SetValue: setting a value in a key marked deleted lifts the mark. How `regashii`'s `with` merge treats a deleted key is foreign code; the model takes the value as reviving the key.
- Cache.CacheRegistry: the cache is keyed by the prefix path as a string. The source keys it by `PathBuf`, whose equality compares components, so `/a/b` and `/a//b/` share one entry there and two here. The same holds for Cache.GetCachedRegistry, Cache.InvalidateCache and Session.WithPrefix.
- Scanner.DedupAdjacent: executable paths are compared as strings, not by components as `PathBuf` equality does, so two neighbours whose paths differ only by a repeated or trailing `/` are merged by the source and kept by the model.
- Config.Validate: whether a path exists is a set of existing paths passed in, not a file-system query.
- The scanner's directory walking, icon lookup and PE metadata extraction are not modelled. They need the file system and the `exe` crate.
- Scanner.SortByName: stability of Rust's `sort_by` is stated only for runs of entries with the same name, not as a general property.
- `RegEditor` methods return `Result` even for reads. The model's getters return the value directly, because the only failures are task-join errors.
- Common.ErrorText: the source's error type has no `ValidationError` or `RegistryError` variant. The display text assumed for them is a validation prefix and the bare message.
- `set_desktop_settings` and `set_app_settings` stop at the first invalid name without undoing earlier writes. The model keeps this partial mutation, including writes made to earlier keys.
