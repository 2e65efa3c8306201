/** The composite settings of the registry editor
    (`src/prefix/regeditor/editor.rs`): shader models, the X11 and Mac driver
    flags, DPI, the explorer desktops and the virtual desktop built on them.
    Each setter writes the present fields in order through `WriteAll`; each
    getter reports `None` when none of its values is stored. */
module Settings {
  import opened Common
  import opened Strings
  import opened Keys
  import opened Store
  import opened Editor

  // ---------------------------------------------------------------------------
  // Shader model settings (DWORDs under Direct3D)
  // ---------------------------------------------------------------------------

  const ShaderNames: seq<string> := [
    "MaxShaderModelVS", "MaxShaderModelPS", "MaxShaderModelGS",
    "MaxShaderModelHS", "MaxShaderModelDS", "MaxShaderModelCS"]

  function ShaderFields(s: ShaderModelSettings): (f: seq<Option<u32>>)
    ensures |f| == |ShaderNames|
  {
    [s.maxShaderModelVS, s.maxShaderModelPS, s.maxShaderModelGS,
     s.maxShaderModelHS, s.maxShaderModelDS, s.maxShaderModelCS]
  }

  function ShaderFromFields(f: seq<Option<u32>>): (s: ShaderModelSettings)
    requires |f| == |ShaderNames|
    ensures ShaderFields(s) == f
  {
    ShaderModelSettings(f[0], f[1], f[2], f[3], f[4], f[5])
  }

  /** The DWORDs stored under `names`, in order. */
  function ReadDwords(reg: Registry, path: string, names: seq<string>): (f: seq<Option<u32>>)
    ensures |f| == |names|
    ensures forall i :: 0 <= i < |names| ==> f[i] == GetDwordValue(reg, path, names[i])
  {
    seq(|names|, i requires 0 <= i < |names| => GetDwordValue(reg, path, names[i]))
  }

  function DwordWrites(names: seq<string>, f: seq<Option<u32>>): (ws: seq<Write>)
    requires |names| == |f|
    ensures |ws| == |names|
    ensures forall i :: 0 <= i < |ws| ==>
      ws[i] == Write(names[i], if f[i].Some? then Some(Dword(f[i].value)) else None)
  {
    seq(|names|, i requires 0 <= i < |names| =>
      Write(names[i], if f[i].Some? then Some(Dword(f[i].value)) else None))
  }

  predicate AllAbsent<T>(f: seq<Option<T>>) {
    forall i :: 0 <= i < |f| ==> f[i].None?
  }

  /** Field-wise `Overlay`: the new fields where present, the old ones
      elsewhere. */
  function OverlayAll<T>(f: seq<Option<T>>, g: seq<Option<T>>): (h: seq<Option<T>>)
    requires |f| == |g|
    ensures |h| == |f|
    ensures forall i :: 0 <= i < |f| ==> h[i] == Overlay(f[i], g[i])
  {
    seq(|f|, i requires 0 <= i < |f| => Overlay(f[i], g[i]))
  }

  lemma ShaderNamesValid()
    ensures forall i :: 0 <= i < |ShaderNames| ==> ValidValueName(ShaderNames[i])
    ensures forall i, j :: 0 <= i < j < |ShaderNames| ==> ShaderNames[i] != ShaderNames[j]
  {
    PlainNameIsValid(ShaderNames[0]);
    PlainNameIsValid(ShaderNames[1]);
    PlainNameIsValid(ShaderNames[2]);
    PlainNameIsValid(ShaderNames[3]);
    PlainNameIsValid(ShaderNames[4]);
    PlainNameIsValid(ShaderNames[5]);
  }

  /** `get_shader_model_settings`: `None` exactly when none of the six DWORDs
      is stored; otherwise each field is its stored DWORD. */
  function GetShaderModelSettings(reg: Registry): (r: Option<ShaderModelSettings>)
    ensures r.None? <==> AllAbsent(ReadDwords(reg, Direct3DPath, ShaderNames))
    ensures r.Some? ==> ShaderFields(r.value) == ReadDwords(reg, Direct3DPath, ShaderNames)
  {
    var f := ReadDwords(reg, Direct3DPath, ShaderNames);
    if AllAbsent(f) then None else Some(ShaderFromFields(f))
  }

  /** Reads of a group of distinct, valid names after writing it. */
  lemma DwordGroupWritten(reg: Registry, path: string, names: seq<string>, f: seq<Option<u32>>)
    requires |names| == |f|
    requires forall i :: 0 <= i < |names| ==> ValidValueName(names[i])
    requires forall i, j :: 0 <= i < j < |names| ==> names[i] != names[j]
    ensures WriteAll(reg, path, DwordWrites(names, f)).status.Ok?
    ensures ReadDwords(WriteAll(reg, path, DwordWrites(names, f)).reg, path, names)
      == OverlayAll(f, ReadDwords(reg, path, names))
    ensures forall n :: n !in names ==>
      GetValue(WriteAll(reg, path, DwordWrites(names, f)).reg, path, n) == GetValue(reg, path, n)
  {
    var ws := DwordWrites(names, f);
    WriteDistinctGroup(reg, path, ws);
    assert NamesOf(ws) == names;
  }

  lemma ShaderGroupWritten(reg: Registry, s: ShaderModelSettings)
    ensures WriteAll(reg, Direct3DPath, DwordWrites(ShaderNames, ShaderFields(s))).status.Ok?
    ensures ReadDwords(WriteAll(reg, Direct3DPath, DwordWrites(ShaderNames, ShaderFields(s))).reg, Direct3DPath, ShaderNames)
      == OverlayAll(ShaderFields(s), ReadDwords(reg, Direct3DPath, ShaderNames))
    ensures forall p, n :: (p != Direct3DPath || n !in ShaderNames) ==>
      GetValue(WriteAll(reg, Direct3DPath, DwordWrites(ShaderNames, ShaderFields(s))).reg, p, n) == GetValue(reg, p, n)
    ensures AllAbsent(ShaderFields(s)) ==> WriteAll(reg, Direct3DPath, DwordWrites(ShaderNames, ShaderFields(s))).reg == reg
  {
    ShaderNamesValid();
    DwordGroupWritten(reg, Direct3DPath, ShaderNames, ShaderFields(s));
    if AllAbsent(ShaderFields(s)) {
      assert NoWrites(DwordWrites(ShaderNames, ShaderFields(s)));
    }
  }

  /** `set_shader_model_settings`: always succeeds; every present field is
      stored and the absent ones keep what was there.  Nothing else in the
      Direct3D key changes. */
  function SetShaderModelSettings(reg: Registry, s: ShaderModelSettings): (r: Update)
    ensures r.status.Ok?
    ensures ReadDwords(r.reg, Direct3DPath, ShaderNames)
      == OverlayAll(ShaderFields(s), ReadDwords(reg, Direct3DPath, ShaderNames))
    ensures forall p, n :: (p != Direct3DPath || n !in ShaderNames) ==> GetValue(r.reg, p, n) == GetValue(reg, p, n)
    ensures AllAbsent(ShaderFields(s)) ==> r.reg == reg
  {
    EditorPathsValidity();
    match ValidateKeyPath(Direct3DPath)
    case Err(e) => Update(reg, Err(e))
    case Ok(_) =>
      ShaderGroupWritten(reg, s);
      WriteAll(reg, Direct3DPath, DwordWrites(ShaderNames, ShaderFields(s)))
  }

  /** Setting shader models and reading them back gives the stored fields
      over the previous ones; with every field present, exactly the
      settings written. */
  lemma ShaderModelRoundTrip(reg: Registry, s: ShaderModelSettings)
    requires !AllAbsent(ShaderFields(s))
    ensures var after := GetShaderModelSettings(SetShaderModelSettings(reg, s).reg);
      after.Some? && ShaderFields(after.value) == OverlayAll(ShaderFields(s), ReadDwords(reg, Direct3DPath, ShaderNames))
  {
    var f := ShaderFields(s);
    var k :| 0 <= k < |f| && f[k].Some?;
    var back := ReadDwords(SetShaderModelSettings(reg, s).reg, Direct3DPath, ShaderNames);
    assert back[k] == Overlay(f[k], ReadDwords(reg, Direct3DPath, ShaderNames)[k]);
  }

  /** With every field present, the settings read back are exactly those
      written. */
  lemma ShaderModelFullRoundTrip(reg: Registry, s: ShaderModelSettings)
    requires forall i :: 0 <= i < |ShaderNames| ==> ShaderFields(s)[i].Some?
    ensures GetShaderModelSettings(SetShaderModelSettings(reg, s).reg) == Some(s)
  {
    var f := ShaderFields(s);
    assert f[0].Some?;
    ShaderModelRoundTrip(reg, s);
    var back := ReadDwords(SetShaderModelSettings(reg, s).reg, Direct3DPath, ShaderNames);
    assert back == f;
  }

  // ---------------------------------------------------------------------------
  // Yes/no flags stored as strings
  // ---------------------------------------------------------------------------

  /** How a boolean is spelled in the registry and read back.  A lenient
      flag reads as true unless it is exactly `no`; a strict one only when it
      is exactly `yes`. */
  datatype FlagCodec = FlagCodec(yes: string, no: string, lenient: bool)

  /** Most X11 driver flags: `Y`/`N`, anything but `N` reads as true. */
  const X11Lenient := FlagCodec("Y", "N", true)
  /** `GrabFullscreen` and `UseXVidMode`: `Y`/`N`, only `Y` reads as true. */
  const X11Strict := FlagCodec("Y", "N", false)
  /** Mac driver flags: `y`/`n`, only `y` reads as true. */
  const MacFlag := FlagCodec("y", "n", false)
  /** `RetinaMode`: written `Y`/`n`, only `Y` reads as true. */
  const RetinaFlag := FlagCodec("Y", "n", false)

  function DecodeFlag(c: FlagCodec, text: string): bool {
    if c.lenient then text != c.no else text == c.yes
  }

  function EncodeFlag(c: FlagCodec, b: bool): (text: string)
    ensures c.yes != c.no ==> DecodeFlag(c, text) == b
  {
    if b then c.yes else c.no
  }

  /** The spellings disagree across codecs: a lower-case `n` is true for a
      lenient X11 flag, and a lower-case `y` is false for `RetinaMode`
      although it is true for the other Mac flags. */
  lemma FlagSpellingsDiffer()
    ensures DecodeFlag(X11Lenient, "n") && !DecodeFlag(X11Strict, "n")
    ensures DecodeFlag(MacFlag, "y") && !DecodeFlag(RetinaFlag, "y")
  {
  }

  datatype FlagField = FlagField(name: string, codec: FlagCodec)

  /** The flags stored under `fields`, decoded; a missing or non-string
      value reads as absent. */
  function ReadFlags(reg: Registry, path: string, fields: seq<FlagField>): (f: seq<Option<bool>>)
    ensures |f| == |fields|
    ensures forall i :: 0 <= i < |fields| ==> f[i] == ReadFlag(reg, path, fields[i])
  {
    seq(|fields|, i requires 0 <= i < |fields| => ReadFlag(reg, path, fields[i]))
  }

  function ReadFlag(reg: Registry, path: string, field: FlagField): Option<bool> {
    match GetStringValue(reg, path, field.name)
    case None => None
    case Some(text) => Some(DecodeFlag(field.codec, text))
  }

  /** A flag written with its codec reads back as written; an absent write
      leaves the slot as it was. */
  lemma FlagSlotWritten(before: Registry, after: Registry, path: string, field: FlagField, v: Option<bool>)
    requires field.codec.yes != field.codec.no
    requires GetValue(after, path, field.name)
      == Overlay(if v.Some? then Some(Sz(EncodeFlag(field.codec, v.value))) else None, GetValue(before, path, field.name))
    ensures ReadFlag(after, path, field) == Overlay(v, ReadFlag(before, path, field))
  {
  }

  function FlagWrites(fields: seq<FlagField>, f: seq<Option<bool>>): (ws: seq<Write>)
    requires |fields| == |f|
    ensures |ws| == |fields|
    ensures forall i :: 0 <= i < |ws| ==>
      ws[i] == Write(fields[i].name, if f[i].Some? then Some(Sz(EncodeFlag(fields[i].codec, f[i].value))) else None)
  {
    seq(|fields|, i requires 0 <= i < |fields| =>
      Write(fields[i].name, if f[i].Some? then Some(Sz(EncodeFlag(fields[i].codec, f[i].value))) else None))
  }

  /** Distinct valid names with codecs whose two spellings differ. */
  predicate WellFormedFields(fields: seq<FlagField>) {
    (forall i :: 0 <= i < |fields| ==> ValidValueName(fields[i].name) && fields[i].codec.yes != fields[i].codec.no)
    && (forall i, j :: 0 <= i < j < |fields| ==> fields[i].name != fields[j].name)
  }

  function FieldNames(fields: seq<FlagField>): (names: seq<string>)
    ensures |names| == |fields|
    ensures forall i :: 0 <= i < |fields| ==> names[i] == fields[i].name
  {
    seq(|fields|, i requires 0 <= i < |fields| => fields[i].name)
  }

  /** Writing a group of flags and reading it back gives the written flags
      over the previous ones; values outside the group are left alone, and
      a group with no present flag writes nothing. */
  lemma FlagGroupWritten(reg: Registry, path: string, fields: seq<FlagField>, f: seq<Option<bool>>)
    requires |fields| == |f| && WellFormedFields(fields)
    ensures WriteAll(reg, path, FlagWrites(fields, f)).status.Ok?
    ensures ReadFlags(WriteAll(reg, path, FlagWrites(fields, f)).reg, path, fields)
      == OverlayAll(f, ReadFlags(reg, path, fields))
    ensures forall p, n :: (p != path || n !in FieldNames(fields)) ==>
      GetValue(WriteAll(reg, path, FlagWrites(fields, f)).reg, p, n) == GetValue(reg, p, n)
    ensures AllAbsent(f) ==> WriteAll(reg, path, FlagWrites(fields, f)).reg == reg
  {
    var ws := FlagWrites(fields, f);
    var after := WriteAll(reg, path, ws).reg;
    WriteDistinctGroup(reg, path, ws);
    assert NamesOf(ws) == FieldNames(fields);
    forall i | 0 <= i < |fields|
      ensures ReadFlags(after, path, fields)[i] == Overlay(f[i], ReadFlags(reg, path, fields)[i])
    {
      assert GetValue(after, path, fields[i].name) == Overlay(ws[i].value, GetValue(reg, path, fields[i].name));
      FlagSlotWritten(reg, after, path, fields[i], f[i]);
    }
    if AllAbsent(f) {
      assert NoWrites(ws);
    }
  }

  // ---------------------------------------------------------------------------
  // X11 driver settings
  // ---------------------------------------------------------------------------

  const X11Fields: seq<FlagField> := [
    FlagField("Decorated", X11Lenient),
    FlagField("ClientSideGraphics", X11Lenient),
    FlagField("ClientSideWithRender", X11Lenient),
    FlagField("ClientSideAntiAliasWithRender", X11Lenient),
    FlagField("ClientSideAntiAliasWithCore", X11Lenient),
    FlagField("GrabFullscreen", X11Strict),
    FlagField("GrabPointer", X11Lenient),
    FlagField("Managed", X11Lenient),
    FlagField("UseXRandR", X11Lenient),
    FlagField("UseXVidMode", X11Strict)]

  lemma X11NamesValidFirst()
    ensures ValidValueName("Decorated") && ValidValueName("ClientSideGraphics") && ValidValueName("ClientSideWithRender")
  {
    PlainNameIsValid("Decorated");
    PlainNameIsValid("ClientSideGraphics");
    PlainNameIsValid("ClientSideWithRender");
  }

  lemma X11NamesValidSecond()
    ensures ValidValueName("ClientSideAntiAliasWithRender") && ValidValueName("ClientSideAntiAliasWithCore")
  {
    PlainNameIsValid("ClientSideAntiAliasWithRender");
    PlainNameIsValid("ClientSideAntiAliasWithCore");
  }

  lemma X11NamesValidThird()
    ensures ValidValueName("GrabFullscreen") && ValidValueName("GrabPointer") && ValidValueName("Managed")
    ensures ValidValueName("UseXRandR") && ValidValueName("UseXVidMode")
  {
    PlainNameIsValid("GrabFullscreen");
    PlainNameIsValid("GrabPointer");
    PlainNameIsValid("Managed");
    PlainNameIsValid("UseXRandR");
    PlainNameIsValid("UseXVidMode");
  }

  lemma X11FieldsWellFormed()
    ensures WellFormedFields(X11Fields)
  {
    X11NamesValidFirst();
    X11NamesValidSecond();
    X11NamesValidThird();
  }

  function X11Values(s: X11DriverSettings): (f: seq<Option<bool>>)
    ensures |f| == |X11Fields|
  {
    [s.decorated, s.clientSideGraphics, s.clientSideWithRender,
     s.clientSideAntialiasWithRender, s.clientSideAntialiasWithCore,
     s.grabFullscreen, s.grabPointer, s.managed, s.useXRandR, s.useXVidMode]
  }

  function X11FromValues(f: seq<Option<bool>>): (s: X11DriverSettings)
    requires |f| == |X11Fields|
    ensures X11Values(s) == f
  {
    X11DriverSettings(f[0], f[1], f[2], f[3], f[4], f[5], f[6], f[7], f[8], f[9])
  }

  /** `get_x11_driver_settings`: `None` exactly when none of the ten values
      is stored as a string; otherwise each flag decoded by its codec. */
  function GetX11DriverSettings(reg: Registry): (r: Option<X11DriverSettings>)
    ensures r.None? <==> AllAbsent(ReadFlags(reg, X11DriverPath, X11Fields))
    ensures r.Some? ==> X11Values(r.value) == ReadFlags(reg, X11DriverPath, X11Fields)
  {
    var f := ReadFlags(reg, X11DriverPath, X11Fields);
    if AllAbsent(f) then None else Some(X11FromValues(f))
  }

  /** `set_x11_driver_settings`: always succeeds; present flags are stored
      as `Y`/`N` and read back as written. */
  function SetX11DriverSettings(reg: Registry, s: X11DriverSettings): (r: Update)
    ensures r.status.Ok?
    ensures ReadFlags(r.reg, X11DriverPath, X11Fields)
      == OverlayAll(X11Values(s), ReadFlags(reg, X11DriverPath, X11Fields))
    ensures forall p, n :: (p != X11DriverPath || n !in FieldNames(X11Fields)) ==>
      GetValue(r.reg, p, n) == GetValue(reg, p, n)
    ensures AllAbsent(X11Values(s)) ==> r.reg == reg
  {
    EditorPathsValidity();
    match ValidateKeyPath(X11DriverPath)
    case Err(e) => Update(reg, Err(e))
    case Ok(_) =>
      X11FieldsWellFormed();
      FlagGroupWritten(reg, X11DriverPath, X11Fields, X11Values(s));
      WriteAll(reg, X11DriverPath, FlagWrites(X11Fields, X11Values(s)))
  }

  /** Settings written to a registry holding no X11 values read back
      unchanged, as long as at least one flag is present. */
  lemma X11DriverRoundTrip(reg: Registry, s: X11DriverSettings)
    requires AllAbsent(ReadFlags(reg, X11DriverPath, X11Fields))
    requires !AllAbsent(X11Values(s))
    ensures GetX11DriverSettings(SetX11DriverSettings(reg, s).reg) == Some(s)
  {
    var after := ReadFlags(SetX11DriverSettings(reg, s).reg, X11DriverPath, X11Fields);
    assert after == X11Values(s);
  }

  // ---------------------------------------------------------------------------
  // Mac driver settings
  // ---------------------------------------------------------------------------

  const MacFlagFields: seq<FlagField> := [
    FlagField("AllowVerticalSync", MacFlag),
    FlagField("CaptureDisplaysForFullscreen", MacFlag),
    FlagField("UsePreciseScrolling", MacFlag),
    FlagField("RetinaMode", RetinaFlag)]

  const FloatName: string := "WindowsFloatWhenInactive"

  lemma MacNamesValidFirst()
    ensures ValidValueName("AllowVerticalSync") && ValidValueName("CaptureDisplaysForFullscreen")
  {
    PlainNameIsValid("AllowVerticalSync");
    PlainNameIsValid("CaptureDisplaysForFullscreen");
  }

  lemma MacNamesValidSecond()
    ensures ValidValueName("UsePreciseScrolling") && ValidValueName("RetinaMode")
    ensures ValidValueName("WindowsFloatWhenInactive")
  {
    PlainNameIsValid("UsePreciseScrolling");
    PlainNameIsValid("RetinaMode");
    PlainNameIsValid("WindowsFloatWhenInactive");
  }

  lemma MacFieldsWellFormed()
    ensures WellFormedFields(MacFlagFields)
    ensures ValidValueName(FloatName) && FloatName !in FieldNames(MacFlagFields)
  {
    MacNamesValidFirst();
    MacNamesValidSecond();
  }

  function MacValues(s: MacDriverSettings): (f: seq<Option<bool>>)
    ensures |f| == |MacFlagFields|
  {
    [s.allowVerticalSync, s.captureDisplaysForFullscreen, s.usePreciseScrolling, s.retinaMode]
  }

  /** The stored float mode; a string that does not parse reads as absent. */
  function ReadFloatMode(reg: Registry): Option<WindowsFloatWhenInactive> {
    match GetStringValue(reg, MacDriverPath, FloatName)
    case None => None
    case Some(text) => WindowsFloatWhenInactiveFromString(text)
  }

  /** `get_mac_driver_settings`: `None` exactly when none of the five values
      is stored as a string. */
  function GetMacDriverSettings(reg: Registry): (r: Option<MacDriverSettings>)
    ensures r.None? <==>
      AllAbsent(ReadFlags(reg, MacDriverPath, MacFlagFields)) && GetStringValue(reg, MacDriverPath, FloatName).None?
    ensures r.Some? ==>
      MacValues(r.value) == ReadFlags(reg, MacDriverPath, MacFlagFields)
      && r.value.windowsFloatWhenInactive == ReadFloatMode(reg)
  {
    var f := ReadFlags(reg, MacDriverPath, MacFlagFields);
    if AllAbsent(f) && GetStringValue(reg, MacDriverPath, FloatName).None? then None
    else Some(MacDriverSettings(f[0], f[1], f[2], f[3], ReadFloatMode(reg)))
  }

  function FloatWrite(s: MacDriverSettings): Write {
    Write(FloatName, if s.windowsFloatWhenInactive.Some?
                     then Some(Sz(WindowsFloatWhenInactiveToString(s.windowsFloatWhenInactive.value)))
                     else None)
  }

  /** The last write of `set_mac_driver_settings`, after the four flags. */
  lemma FloatWritten(reg: Registry, s: MacDriverSettings)
    ensures WriteAll(reg, MacDriverPath, [FloatWrite(s)]).status.Ok?
    ensures ReadFloatMode(WriteAll(reg, MacDriverPath, [FloatWrite(s)]).reg)
      == Overlay(s.windowsFloatWhenInactive, ReadFloatMode(reg))
    ensures forall p, n :: (p != MacDriverPath || n != FloatName) ==>
      GetValue(WriteAll(reg, MacDriverPath, [FloatWrite(s)]).reg, p, n) == GetValue(reg, p, n)
  {
    MacNamesValidSecond();
    WriteDistinctGroup(reg, MacDriverPath, [FloatWrite(s)]);
    assert NamesOf([FloatWrite(s)]) == [FloatName];
  }

  /** Reading a flag group depends only on the values stored under its
      names. */
  lemma ReadFlagsFrame(a: Registry, b: Registry, path: string, fields: seq<FlagField>)
    requires forall i :: 0 <= i < |fields| ==> GetValue(a, path, fields[i].name) == GetValue(b, path, fields[i].name)
    ensures ReadFlags(a, path, fields) == ReadFlags(b, path, fields)
  {
  }

  /** The two writes of the Mac setter: the flags first, then the float mode
      into the registry the first write left. */
  lemma MacWritten(reg: Registry, s: MacDriverSettings, mid: Registry, out: Update)
    requires mid == WriteAll(reg, MacDriverPath, FlagWrites(MacFlagFields, MacValues(s))).reg
    requires out == WriteAll(mid, MacDriverPath, [FloatWrite(s)])
    ensures out.status.Ok?
    ensures ReadFlags(out.reg, MacDriverPath, MacFlagFields)
      == OverlayAll(MacValues(s), ReadFlags(reg, MacDriverPath, MacFlagFields))
    ensures ReadFloatMode(out.reg) == Overlay(s.windowsFloatWhenInactive, ReadFloatMode(reg))
    ensures forall p, n :: (p != MacDriverPath || (n !in FieldNames(MacFlagFields) && n != FloatName)) ==>
      GetValue(out.reg, p, n) == GetValue(reg, p, n)
  {
    MacFieldsWellFormed();
    FlagGroupWritten(reg, MacDriverPath, MacFlagFields, MacValues(s));
    FloatWritten(mid, s);
    MacFloatKeepsFlags(mid, out.reg);
  }

  /** The float-mode write leaves the flags as the flag write left them. */
  lemma MacFloatKeepsFlags(mid: Registry, after: Registry)
    requires forall p, n :: (p != MacDriverPath || n != FloatName) ==> GetValue(after, p, n) == GetValue(mid, p, n)
    ensures ReadFlags(after, MacDriverPath, MacFlagFields) == ReadFlags(mid, MacDriverPath, MacFlagFields)
  {
    forall i | 0 <= i < |MacFlagFields|
      ensures GetValue(after, MacDriverPath, MacFlagFields[i].name) == GetValue(mid, MacDriverPath, MacFlagFields[i].name)
    {
      assert MacFlagFields[i].name != FloatName;
    }
    ReadFlagsFrame(after, mid, MacDriverPath, MacFlagFields);
  }

  /** `set_mac_driver_settings`: always succeeds; the four flags and then
      the float mode are written when present, and read back as written. */
  function SetMacDriverSettings(reg: Registry, s: MacDriverSettings): (r: Update)
    ensures r.status.Ok?
    ensures ReadFlags(r.reg, MacDriverPath, MacFlagFields)
      == OverlayAll(MacValues(s), ReadFlags(reg, MacDriverPath, MacFlagFields))
    ensures ReadFloatMode(r.reg) == Overlay(s.windowsFloatWhenInactive, ReadFloatMode(reg))
    ensures forall p, n :: (p != MacDriverPath || (n !in FieldNames(MacFlagFields) && n != FloatName)) ==>
      GetValue(r.reg, p, n) == GetValue(reg, p, n)
  {
    EditorPathsValidity();
    match ValidateKeyPath(MacDriverPath)
    case Err(e) => Update(reg, Err(e))
    case Ok(_) =>
      var flags := WriteAll(reg, MacDriverPath, FlagWrites(MacFlagFields, MacValues(s)));
      var r := WriteAll(flags.reg, MacDriverPath, [FloatWrite(s)]);
      MacWritten(reg, s, flags.reg, r);
      r
  }

  /** Settings written to a registry holding no Mac driver values read back
      unchanged, as long as at least one field is present. */
  lemma MacDriverRoundTrip(reg: Registry, s: MacDriverSettings)
    requires AllAbsent(ReadFlags(reg, MacDriverPath, MacFlagFields))
    requires GetStringValue(reg, MacDriverPath, FloatName).None?
    requires !AllAbsent(MacValues(s)) || s.windowsFloatWhenInactive.Some?
    ensures GetMacDriverSettings(SetMacDriverSettings(reg, s).reg) == Some(s)
  {
    var after := SetMacDriverSettings(reg, s).reg;
    assert ReadFlags(after, MacDriverPath, MacFlagFields) == MacValues(s);
    if s.windowsFloatWhenInactive.Some? {
      assert GetStringValue(after, MacDriverPath, FloatName).Some?;
    }
  }

  // ---------------------------------------------------------------------------
  // DPI
  // ---------------------------------------------------------------------------

  /** `get_dpi_settings`: the `LogPixels` DWORD of `Control Panel\Desktop`. */
  function GetDpiSettings(reg: Registry): (r: Option<DpiSettings>)
    ensures r.None? <==> GetDwordValue(reg, DpiPath, "LogPixels").None?
    ensures r.Some? ==> r.value.logPixels == GetDwordValue(reg, DpiPath, "LogPixels")
  {
    var logPixels := GetDwordValue(reg, DpiPath, "LogPixels");
    if logPixels.None? then None else Some(DpiSettings(logPixels))
  }

  const DpiTooLow: string := "DPI must be at least 96"

  /** `set_dpi_settings`: its key path does not start with `Software`, so the
      key-path check rejects every call before the DPI range is looked at. */
  function SetDpiSettings(reg: Registry, s: DpiSettings): (r: Update)
    ensures r == Update(reg, Err(Validation(KeyPathFormat(DpiPath))))
    ensures GetDpiSettings(r.reg) == GetDpiSettings(reg)
  {
    EditorPathsValidity();
    match ValidateKeyPath(DpiPath)
    case Err(e) => Update(reg, Err(e))
    case Ok(_) =>
      match s.logPixels
      case None => Update(reg, Ok(()))
      case Some(dpi) =>
        if dpi < 96 then Update(reg, Err(Validation(DpiTooLow)))
        else
          match ValidateValueName("LogPixels")
          case Err(e) => Update(reg, Err(e))
          case Ok(_) => Update(SetDwordValue(reg, DpiPath, "LogPixels", dpi), Ok(()))
  }

  // ---------------------------------------------------------------------------
  // Explorer desktops
  // ---------------------------------------------------------------------------

  /** The size stored for desktop `name`: an `Sz` that parses as
      `<width>x<height>`; anything else reads as absent. */
  function StoredDesktopSize(reg: Registry, name: string): Option<DesktopSize> {
    match GetValue(reg, DesktopsPath, name)
    case Some(Sz(text)) => DesktopSizeFromString(text)
    case _ => None
  }

  /** `get_desktop_settings`: always `Some`; `ShowSystray` defaults to on when
      no DWORD is stored. */
  function GetDesktopSettings(reg: Registry): (r: Option<DesktopSettings>)
    ensures r.Some?
    ensures r.value.desktop == GetStringValue(reg, ExplorerPath, "Desktop")
    ensures r.value.showSystray <==> GetDwordValue(reg, ExplorerPath, "ShowSystray") != Some(0)
    ensures forall n :: n in r.value.desktops <==> StoredDesktopSize(reg, n).Some?
    ensures forall n :: n in r.value.desktops ==> Some(r.value.desktops[n]) == StoredDesktopSize(reg, n)
  {
    var values := GetKeyValues(reg, DesktopsPath);
    var showSystray := match GetDwordValue(reg, ExplorerPath, "ShowSystray") case Some(d) => d case None => 1;
    var desktops := map n | n in values && values[n].Sz? && DesktopSizeFromString(values[n].text).Some?
                      :: DesktopSizeFromString(values[n].text).value;
    Some(DesktopSettings(GetStringValue(reg, ExplorerPath, "Desktop"), desktops, showSystray != 0))
  }

  function DesktopWrites(desktops: map<string, DesktopSize>, names: seq<string>): (ws: seq<Write>)
    requires forall i :: 0 <= i < |names| ==> names[i] in desktops
    ensures |ws| == |names|
    ensures forall i :: 0 <= i < |ws| ==> ws[i] == Write(names[i], Some(Sz(DesktopSizeToString(desktops[names[i]]))))
  {
    seq(|names|, i requires 0 <= i < |names| => Write(names[i], Some(Sz(DesktopSizeToString(desktops[names[i]])))))
  }

  /** The explorer-key part of `set_desktop_settings`: `Desktop` when
      present, then `ShowSystray`. */
  function DesktopHead(reg: Registry, s: DesktopSettings): (r: Registry)
    ensures GetStringValue(r, ExplorerPath, "Desktop") == Overlay(s.desktop, GetStringValue(reg, ExplorerPath, "Desktop"))
    ensures GetDwordValue(r, ExplorerPath, "ShowSystray") == Some(if s.showSystray then 1 else 0)
    ensures forall p, n :: p != ExplorerPath ==> GetValue(r, p, n) == GetValue(reg, p, n)
  {
    var reg1 := if s.desktop.Some? then SetStringValue(reg, ExplorerPath, "Desktop", s.desktop.value) else reg;
    SetDwordValue(reg1, ExplorerPath, "ShowSystray", if s.showSystray then 1 else 0)
  }

  /** `set_desktop_settings`: stores `Desktop` (when present) and
      `ShowSystray`, then each desktop's size in ascending name order.  A
      desktop name that fails validation stops the call with an error, after
      `Desktop`, `ShowSystray` and the desktops before it were written. */
  function SetDesktopSettings(reg: Registry, s: DesktopSettings): (r: Update)
    ensures r.status.Ok? <==> forall n :: n in s.desktops ==> ValidValueName(n)
    ensures r.status.Err? ==> exists n :: n in s.desktops && r.status == ValidateValueName(n)
    ensures GetStringValue(r.reg, ExplorerPath, "Desktop") == Overlay(s.desktop, GetStringValue(reg, ExplorerPath, "Desktop"))
    ensures GetDwordValue(r.reg, ExplorerPath, "ShowSystray") == Some(if s.showSystray then 1 else 0)
    ensures r.status.Ok? ==>
      forall n :: StoredDesktopSize(r.reg, n) == if n in s.desktops then Some(s.desktops[n]) else StoredDesktopSize(reg, n)
    ensures forall p, n :: p != ExplorerPath && p != DesktopsPath ==> GetValue(r.reg, p, n) == GetValue(reg, p, n)
  {
    EditorPathsValidity();
    match ValidateKeyPath(ExplorerPath)
    case Err(e) => Update(reg, Err(e))
    case Ok(_) =>
      var head := DesktopHead(reg, s);
      AscendingListsKeys(s.desktops);
      var r := WriteAll(head, DesktopsPath, DesktopWrites(s.desktops, Ascending(s.desktops.Keys)));
      DesktopWritesEffect(head, s.desktops, Ascending(s.desktops.Keys), r);
      DesktopHeadKept(reg, s, head, r);
      r
  }

  lemma DesktopHeadKept(reg: Registry, s: DesktopSettings, head: Registry, r: Update)
    requires head == DesktopHead(reg, s)
    requires forall p, n :: p != DesktopsPath ==> GetValue(r.reg, p, n) == GetValue(head, p, n)
    ensures GetStringValue(r.reg, ExplorerPath, "Desktop") == Overlay(s.desktop, GetStringValue(reg, ExplorerPath, "Desktop"))
    ensures GetDwordValue(r.reg, ExplorerPath, "ShowSystray") == Some(if s.showSystray then 1 else 0)
    ensures forall n :: StoredDesktopSize(head, n) == StoredDesktopSize(reg, n)
  {
    assert ExplorerPath != DesktopsPath by { assert |ExplorerPath| != |DesktopsPath|; }
  }

  /** Reading desktop settings back after setting them: `Desktop` as
      written (or as before when absent), `ShowSystray` as written, and,
      when every desktop name was valid, each written desktop's size. */
  lemma DesktopSettingsRoundTrip(reg: Registry, s: DesktopSettings)
    ensures var after := GetDesktopSettings(SetDesktopSettings(reg, s).reg).value;
      after.desktop == Overlay(s.desktop, GetDesktopSettings(reg).value.desktop)
      && after.showSystray == s.showSystray
    ensures SetDesktopSettings(reg, s).status.Ok? ==>
      var after := GetDesktopSettings(SetDesktopSettings(reg, s).reg).value;
      forall n :: n in s.desktops ==> n in after.desktops && after.desktops[n] == s.desktops[n]
  {
    var r := SetDesktopSettings(reg, s);
    if r.status.Ok? {
      var after := GetDesktopSettings(r.reg).value;
      forall n | n in s.desktops ensures n in after.desktops && after.desktops[n] == s.desktops[n] {
        assert StoredDesktopSize(r.reg, n) == Some(s.desktops[n]);
      }
    }
  }

  lemma DesktopWritesEffect(reg: Registry, desktops: map<string, DesktopSize>, names: seq<string>, r: Update)
    requires ListsKeys(names, desktops)
    requires r == WriteAll(reg, DesktopsPath, DesktopWrites(desktops, names))
    ensures r.status.Ok? <==> forall n :: n in desktops ==> ValidValueName(n)
    ensures r.status.Err? ==> exists n :: n in desktops && r.status == ValidateValueName(n)
    ensures r.status.Ok? ==>
      forall n :: StoredDesktopSize(r.reg, n) == if n in desktops then Some(desktops[n]) else StoredDesktopSize(reg, n)
  {
    DesktopWritesStatus(reg, desktops, names, r);
    if r.status.Ok? {
      DesktopsStored(reg, desktops, names);
    }
  }

  lemma DesktopWritesStatus(reg: Registry, desktops: map<string, DesktopSize>, names: seq<string>, r: Update)
    requires ListsKeys(names, desktops)
    requires r == WriteAll(reg, DesktopsPath, DesktopWrites(desktops, names))
    ensures r.status.Ok? <==> forall n :: n in desktops ==> ValidValueName(n)
    ensures r.status.Err? ==> exists n :: n in desktops && r.status == ValidateValueName(n)
  {
    var ws := DesktopWrites(desktops, names);
    NamedWritesStatus(reg, desktops, names, ws, r);
  }

  /** The status half of `DesktopWritesStatus`, stated for any writes that
      set every listed name once, so the written values play no part. */
  lemma NamedWritesStatus<V>(reg: Registry, m: map<string, V>, names: seq<string>, ws: seq<Write>, r: Update)
    requires ListsKeys(names, m)
    requires |ws| == |names|
    requires forall i :: 0 <= i < |ws| ==> ws[i].name == names[i] && ws[i].value.Some?
    requires r == WriteAll(reg, DesktopsPath, ws)
    ensures r.status.Ok? <==> forall n :: n in m ==> ValidValueName(n)
    ensures r.status.Err? ==> exists n :: n in m && r.status == ValidateValueName(n)
  {
    if r.status.Err? {
      var i := FirstInvalidWrite(ws).value;
      assert names[i] in m;
    } else {
      forall n | n in m
        ensures ValidValueName(n)
      {
        var i :| 0 <= i < |names| && names[i] == n;
        assert ws[i].value.Some?;
      }
    }
  }

  lemma StoredSizeOfWritten(reg: Registry, n: string, d: DesktopSize)
    requires GetValue(reg, DesktopsPath, n) == Some(Sz(DesktopSizeToString(d)))
    ensures StoredDesktopSize(reg, n) == Some(d)
  {
  }

  lemma StoredSizeFrame(a: Registry, b: Registry, n: string)
    requires GetValue(a, DesktopsPath, n) == GetValue(b, DesktopsPath, n)
    ensures StoredDesktopSize(a, n) == StoredDesktopSize(b, n)
  {
  }

  lemma DesktopStoredAt(reg: Registry, desktops: map<string, DesktopSize>, names: seq<string>, after: Registry, n: string)
    requires ListsKeys(names, desktops)
    requires WritesValid(DesktopWrites(desktops, names))
    requires after == WriteAll(reg, DesktopsPath, DesktopWrites(desktops, names)).reg
    ensures StoredDesktopSize(after, n) == if n in desktops then Some(desktops[n]) else StoredDesktopSize(reg, n)
  {
    if n in desktops {
      DesktopWrittenAt(reg, desktops, names, after, n);
    } else {
      DesktopKeptAt(reg, desktops, names, after, n);
    }
  }

  lemma DesktopWrittenAt(reg: Registry, desktops: map<string, DesktopSize>, names: seq<string>, after: Registry, n: string)
    requires ListsKeys(names, desktops)
    requires WritesValid(DesktopWrites(desktops, names))
    requires after == WriteAll(reg, DesktopsPath, DesktopWrites(desktops, names)).reg
    requires n in desktops
    ensures StoredDesktopSize(after, n) == Some(desktops[n])
  {
    var ws := DesktopWrites(desktops, names);
    assert DistinctNames(ws);
    WriteDistinctGroup(reg, DesktopsPath, ws);
    var i :| 0 <= i < |names| && names[i] == n;
    assert ws[i] == Write(n, Some(Sz(DesktopSizeToString(desktops[n]))));
    StoredSizeOfWritten(after, n, desktops[n]);
  }

  lemma DesktopKeptAt(reg: Registry, desktops: map<string, DesktopSize>, names: seq<string>, after: Registry, n: string)
    requires ListsKeys(names, desktops)
    requires WritesValid(DesktopWrites(desktops, names))
    requires after == WriteAll(reg, DesktopsPath, DesktopWrites(desktops, names)).reg
    requires n !in desktops
    ensures StoredDesktopSize(after, n) == StoredDesktopSize(reg, n)
  {
    DesktopSlotKept(reg, desktops, names, n);
    StoredSizeFrame(after, reg, n);
  }

  lemma DesktopSlotKept(reg: Registry, desktops: map<string, DesktopSize>, names: seq<string>, n: string)
    requires ListsKeys(names, desktops)
    requires WritesValid(DesktopWrites(desktops, names))
    requires n !in desktops
    ensures GetValue(WriteAll(reg, DesktopsPath, DesktopWrites(desktops, names)).reg, DesktopsPath, n)
      == GetValue(reg, DesktopsPath, n)
  {
    var ws := DesktopWrites(desktops, names);
    assert DistinctNames(ws);
    assert n !in NamesOf(ws);
    WriteDistinctGroup(reg, DesktopsPath, ws);
  }

  lemma DesktopsStored(reg: Registry, desktops: map<string, DesktopSize>, names: seq<string>)
    requires ListsKeys(names, desktops)
    requires WritesValid(DesktopWrites(desktops, names))
    ensures var r := WriteAll(reg, DesktopsPath, DesktopWrites(desktops, names));
      forall n :: StoredDesktopSize(r.reg, n) == if n in desktops then Some(desktops[n]) else StoredDesktopSize(reg, n)
  {
    var after := WriteAll(reg, DesktopsPath, DesktopWrites(desktops, names)).reg;
    forall n ensures StoredDesktopSize(after, n) == if n in desktops then Some(desktops[n]) else StoredDesktopSize(reg, n) {
      DesktopStoredAt(reg, desktops, names, after, n);
    }
  }

  // ---------------------------------------------------------------------------
  // Virtual desktop
  // ---------------------------------------------------------------------------

  const DefaultDesktop: string := "Default"

  /** `get_virtual_desktop`: enabled, with the size of the desktop named by
      `Desktop`, when that desktop has a stored size; `None` otherwise.  It
      never reports a disabled desktop. */
  function GetVirtualDesktop(reg: Registry): (r: Option<VirtualDesktopSettings>)
    ensures r.Some? <==>
      GetStringValue(reg, ExplorerPath, "Desktop").Some?
      && StoredDesktopSize(reg, GetStringValue(reg, ExplorerPath, "Desktop").value).Some?
    ensures r.Some? ==>
      var size := StoredDesktopSize(reg, GetStringValue(reg, ExplorerPath, "Desktop").value).value;
      r.value == VirtualDesktopSettings(true, size.width, size.height)
  {
    var settings := GetDesktopSettings(reg).value;
    match settings.desktop
    case None => None
    case Some(name) =>
      if name in settings.desktops
      then Some(VirtualDesktopSettings(true, settings.desktops[name].width, settings.desktops[name].height))
      else None
  }

  /** `set_virtual_desktop`: enabling writes a desktop named `Default` with
      the requested size, selects it and hides the systray; disabling
      tombstones `Desktop`. */
  function SetVirtualDesktop(reg: Registry, v: VirtualDesktopSettings): (r: Update)
    ensures r.status.Ok?
    ensures v.enabled ==> GetVirtualDesktop(r.reg) == Some(v)
    ensures v.enabled ==> GetDwordValue(r.reg, ExplorerPath, "ShowSystray") == Some(0)
    ensures v.enabled ==> GetStringValue(r.reg, ExplorerPath, "Desktop") == Some(DefaultDesktop)
    ensures v.enabled ==> StoredDesktopSize(r.reg, DefaultDesktop) == Some(DesktopSize(v.width, v.height))
    ensures v.enabled ==> forall n :: n != DefaultDesktop ==> StoredDesktopSize(r.reg, n) == StoredDesktopSize(reg, n)
    ensures v.enabled ==> forall p, n :: p != ExplorerPath && p != DesktopsPath ==> GetValue(r.reg, p, n) == GetValue(reg, p, n)
    ensures !v.enabled ==> GetVirtualDesktop(r.reg).None? && Untouched(reg, r.reg, ExplorerPath, "Desktop")
  {
    if v.enabled then
      var r := SetDesktopSettings(reg, VirtualDesktopAsSettings(v.width, v.height));
      VirtualDesktopWritten(reg, v.width, v.height);
      VirtualDesktopReadsBack(r.reg, v.width, v.height);
      r
    else
      EditorPathsValidity();
      match ValidateKeyPath(ExplorerPath)
      case Err(e) => Update(reg, Err(e))
      case Ok(_) => Update(DeleteValue(reg, ExplorerPath, "Desktop"), Ok(()))
  }

  /** The desktop settings that enabling a virtual desktop writes. */
  function VirtualDesktopAsSettings(width: u32, height: u32): DesktopSettings {
    DesktopSettings(Some(DefaultDesktop), map[DefaultDesktop := DesktopSize(width, height)], false)
  }

  lemma VirtualDesktopWritten(reg: Registry, width: u32, height: u32)
    ensures var r := SetDesktopSettings(reg, VirtualDesktopAsSettings(width, height));
      r.status.Ok?
      && GetStringValue(r.reg, ExplorerPath, "Desktop") == Some(DefaultDesktop)
      && GetDwordValue(r.reg, ExplorerPath, "ShowSystray") == Some(0)
      && StoredDesktopSize(r.reg, DefaultDesktop) == Some(DesktopSize(width, height))
      && (forall n :: n != DefaultDesktop ==> StoredDesktopSize(r.reg, n) == StoredDesktopSize(reg, n))
      && (forall p, n :: p != ExplorerPath && p != DesktopsPath ==> GetValue(r.reg, p, n) == GetValue(reg, p, n))
  {
    PlainNameIsValid(DefaultDesktop);
    var s := VirtualDesktopAsSettings(width, height);
    assert s.desktops.Keys == {DefaultDesktop};
    assert forall n :: n in s.desktops ==> ValidValueName(n);
  }

  lemma VirtualDesktopReadsBack(reg: Registry, width: u32, height: u32)
    requires GetStringValue(reg, ExplorerPath, "Desktop") == Some(DefaultDesktop)
    requires StoredDesktopSize(reg, DefaultDesktop) == Some(DesktopSize(width, height))
    ensures GetVirtualDesktop(reg) == Some(VirtualDesktopSettings(true, width, height))
  {
  }

  // ---------------------------------------------------------------------------
  // Freshly constructed settings
  // ---------------------------------------------------------------------------

  /** `ShaderModelSettings::new` leaves every field unset, so handing it to
      its setter writes nothing. */
  lemma FreshShaderSettingsWriteNothing(reg: Registry)
    ensures SetShaderModelSettings(reg, NewShaderModelSettings()) == Update(reg, Ok(()))
  {
    assert AllAbsent(ShaderFields(NewShaderModelSettings()));
  }

  /** `X11DriverSettings::new` leaves every field unset: its setter writes
      nothing, and a registry without X11 settings still reads as having
      none. */
  lemma FreshX11SettingsWriteNothing(reg: Registry)
    ensures SetX11DriverSettings(reg, NewX11DriverSettings()).reg == reg
    ensures GetX11DriverSettings(reg).None? ==>
      GetX11DriverSettings(SetX11DriverSettings(reg, NewX11DriverSettings()).reg).None?
  {
    assert AllAbsent(X11Values(NewX11DriverSettings()));
  }

  /** `MacDriverSettings::new` leaves every field unset, so its setter
      succeeds and writes nothing. */
  lemma FreshMacSettingsWriteNothing(reg: Registry)
    ensures SetMacDriverSettings(reg, NewMacDriverSettings()) == Update(reg, Ok(()))
  {
    var s := NewMacDriverSettings();
    EditorPathsValidity();
    assert NoWrites(FlagWrites(MacFlagFields, MacValues(s)));
    assert NoWrites([FloatWrite(s)]);
  }

  /** `DpiSettings::new` is the one value `get_dpi_settings` never returns,
      and `new_with_dpi(d)` is what it returns exactly when `LogPixels`
      holds the DWORD `d`. */
  lemma DpiConstructorsAsRead(reg: Registry)
    ensures GetDpiSettings(reg) != Some(NewDpiSettings())
    ensures forall d: u32 :: GetDpiSettings(reg) == Some(DpiSettingsWithDpi(d)) <==>
      GetValue(reg, DpiPath, "LogPixels") == Some(Dword(d))
  {
  }
}
