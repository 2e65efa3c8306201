/** The settings schema (`src/prefix/regeditor/keys.rs`): the closed
    enumerations with their registry spellings, the "WxH" desktop size codec,
    and the composite settings records that the editor assembles from, and
    decomposes into, individual registry values. */
module Keys {
  import opened Common
  import opened Strings

  // ---------------------------------------------------------------------------
  // Windows version
  // ---------------------------------------------------------------------------

  datatype WindowsVersion =
    | Win10 | Win81 | Win8 | Win7 | Win2008 | Vista | Win2003
    | WinXP | Win2K | NT40 | WinME | Win98 | Win95 | Win31

  /** Exact, case-sensitive match on the fourteen registry spellings. */
  function WindowsVersionFromString(s: string): (r: Option<WindowsVersion>)
  {
    match s
    case "win10" => Some(Win10)
    case "win81" => Some(Win81)
    case "win8" => Some(Win8)
    case "win7" => Some(Win7)
    case "win2008" => Some(Win2008)
    case "vista" => Some(Vista)
    case "win2003" => Some(Win2003)
    case "winxp" => Some(WinXP)
    case "win2k" => Some(Win2K)
    case "nt40" => Some(NT40)
    case "winme" => Some(WinME)
    case "win98" => Some(Win98)
    case "win95" => Some(Win95)
    case "win31" => Some(Win31)
    case _ => None
  }

  function WindowsVersionToString(v: WindowsVersion): (s: string)
    ensures WindowsVersionFromString(s) == Some(v)
  {
    match v
    case Win10 => "win10"
    case Win81 => "win81"
    case Win8 => "win8"
    case Win7 => "win7"
    case Win2008 => "win2008"
    case Vista => "vista"
    case Win2003 => "win2003"
    case WinXP => "winxp"
    case Win2K => "win2k"
    case NT40 => "nt40"
    case WinME => "winme"
    case Win98 => "win98"
    case Win95 => "win95"
    case Win31 => "win31"
  }

  /** The decoder accepts exactly the encoder's image, so the fourteen
      spellings are pairwise distinct. */
  lemma WindowsVersionCodec(s: string, a: WindowsVersion, b: WindowsVersion)
    ensures WindowsVersionFromString(s).Some? <==> exists v :: WindowsVersionToString(v) == s
    ensures WindowsVersionToString(a) == WindowsVersionToString(b) ==> a == b
  {
    StringSideRoundTrips(s);
    if WindowsVersionFromString(s).Some? {
      var v := WindowsVersionFromString(s).value;
      assert WindowsVersionToString(v) == s;
    }
  }

  // ---------------------------------------------------------------------------
  // Direct3D renderer
  // ---------------------------------------------------------------------------

  datatype D3DRenderer = GDI | OpenGL | Vulkan

  /** `"no3d"` is accepted as an alias of `"gdi"`. */
  function D3DRendererFromString(s: string): (r: Option<D3DRenderer>)
  {
    match s
    case "gdi" => Some(GDI)
    case "no3d" => Some(GDI)
    case "gl" => Some(OpenGL)
    case "vulkan" => Some(Vulkan)
    case _ => None
  }

  function D3DRendererToString(v: D3DRenderer): (s: string)
    ensures D3DRendererFromString(s) == Some(v)
  {
    match v
    case GDI => "gdi"
    case OpenGL => "gl"
    case Vulkan => "vulkan"
  }

  /** The alias makes the string side lossy: `"no3d"` re-encodes as `"gdi"`. */
  lemma No3dIsNotRoundTripped()
    ensures D3DRendererFromString("no3d") == Some(GDI)
    ensures D3DRendererToString(D3DRendererFromString("no3d").value) == "gdi"
  {
  }

  // ---------------------------------------------------------------------------
  // Offscreen rendering mode
  // ---------------------------------------------------------------------------

  datatype OffscreenRenderingMode = Backbuffer | FBO

  function OffscreenRenderingModeFromString(s: string): (r: Option<OffscreenRenderingMode>)
  {
    match s
    case "backbuffer" => Some(Backbuffer)
    case "fbo" => Some(FBO)
    case _ => None
  }

  function OffscreenRenderingModeToString(v: OffscreenRenderingMode): (s: string)
    ensures OffscreenRenderingModeFromString(s) == Some(v)
  {
    match v
    case Backbuffer => "backbuffer"
    case FBO => "fbo"
  }

  // ---------------------------------------------------------------------------
  // Mouse warp override
  // ---------------------------------------------------------------------------

  datatype MouseWarpOverride = Enable | Disable | Force

  function MouseWarpOverrideFromString(s: string): (r: Option<MouseWarpOverride>)
  {
    match s
    case "enable" => Some(Enable)
    case "disable" => Some(Disable)
    case "force" => Some(Force)
    case _ => None
  }

  function MouseWarpOverrideToString(v: MouseWarpOverride): (s: string)
    ensures MouseWarpOverrideFromString(s) == Some(v)
  {
    match v
    case Enable => "enable"
    case Disable => "disable"
    case Force => "force"
  }

  // ---------------------------------------------------------------------------
  // DLL override setting
  // ---------------------------------------------------------------------------

  datatype DllOverrideSetting = Native | Builtin | NativeBuiltin | BuiltinNative | Disabled

  function DllOverrideSettingFromString(s: string): (r: Option<DllOverrideSetting>)
  {
    match s
    case "native" => Some(Native)
    case "builtin" => Some(Builtin)
    case "native,builtin" => Some(NativeBuiltin)
    case "builtin,native" => Some(BuiltinNative)
    case "" => Some(DllOverrideSetting.Disabled)
    case _ => None
  }

  function DllOverrideSettingToString(v: DllOverrideSetting): (s: string)
    ensures DllOverrideSettingFromString(s) == Some(v)
  {
    match v
    case Native => "native"
    case Builtin => "builtin"
    case NativeBuiltin => "native,builtin"
    case BuiltinNative => "builtin,native"
    case Disabled => ""
  }

  // ---------------------------------------------------------------------------
  // Audio driver
  // ---------------------------------------------------------------------------

  datatype AudioDriver = Pulse | ALSA | OSS | CoreAudio | Disabled

  function AudioDriverFromString(s: string): (r: Option<AudioDriver>)
  {
    match s
    case "pulse" => Some(Pulse)
    case "alsa" => Some(ALSA)
    case "oss" => Some(OSS)
    case "coreaudio" => Some(CoreAudio)
    case "" => Some(AudioDriver.Disabled)
    case _ => None
  }

  function AudioDriverToString(v: AudioDriver): (s: string)
    ensures AudioDriverFromString(s) == Some(v)
  {
    match v
    case Pulse => "pulse"
    case ALSA => "alsa"
    case OSS => "oss"
    case CoreAudio => "coreaudio"
    case Disabled => ""
  }

  /** Both "disabled" variants are spelled as the empty string. */
  lemma DisabledIsEmptyString()
    ensures DllOverrideSettingToString(DllOverrideSetting.Disabled) == ""
    ensures AudioDriverToString(AudioDriver.Disabled) == ""
    ensures DllOverrideSettingFromString("") == Some(DllOverrideSetting.Disabled)
    ensures AudioDriverFromString("") == Some(AudioDriver.Disabled)
  {
  }

  // ---------------------------------------------------------------------------
  // Graphics driver
  // ---------------------------------------------------------------------------

  datatype GraphicsDriver = X11 | Mac | Null

  function GraphicsDriverFromString(s: string): (r: Option<GraphicsDriver>)
  {
    match s
    case "x11" => Some(X11)
    case "mac" => Some(Mac)
    case "null" => Some(Null)
    case _ => None
  }

  function GraphicsDriverToString(v: GraphicsDriver): (s: string)
    ensures GraphicsDriverFromString(s) == Some(v)
  {
    match v
    case X11 => "x11"
    case Mac => "mac"
    case Null => "null"
  }

  // ---------------------------------------------------------------------------
  // Mac driver "windows float when inactive"
  // ---------------------------------------------------------------------------

  datatype WindowsFloatWhenInactive = FloatNone | FloatAll | FloatNonFullscreen

  function WindowsFloatWhenInactiveFromString(s: string): (r: Option<WindowsFloatWhenInactive>)
  {
    match s
    case "none" => Some(FloatNone)
    case "all" => Some(FloatAll)
    case "nonfullscreen" => Some(FloatNonFullscreen)
    case _ => None
  }

  function WindowsFloatWhenInactiveToString(v: WindowsFloatWhenInactive): (s: string)
    ensures WindowsFloatWhenInactiveFromString(s) == Some(v)
  {
    match v
    case FloatNone => "none"
    case FloatAll => "all"
    case FloatNonFullscreen => "nonfullscreen"
  }

  /** The string side: every accepted spelling is the canonical spelling of
      what it decodes to, except the renderer alias `"no3d"`. */
  lemma StringSideRoundTrips(s: string)
    ensures WindowsVersionFromString(s).Some? ==> WindowsVersionToString(WindowsVersionFromString(s).value) == s
    ensures D3DRendererFromString(s).Some? ==>
      D3DRendererToString(D3DRendererFromString(s).value) == s || (s == "no3d" && D3DRendererFromString(s) == Some(GDI))
    ensures OffscreenRenderingModeFromString(s).Some? ==>
      OffscreenRenderingModeToString(OffscreenRenderingModeFromString(s).value) == s
    ensures MouseWarpOverrideFromString(s).Some? ==> MouseWarpOverrideToString(MouseWarpOverrideFromString(s).value) == s
  {
  }

  /** The same for the DLL override, driver and float-mode spellings. */
  lemma DriverStringSideRoundTrips(s: string)
    ensures DllOverrideSettingFromString(s).Some? ==>
      DllOverrideSettingToString(DllOverrideSettingFromString(s).value) == s
    ensures AudioDriverFromString(s).Some? ==> AudioDriverToString(AudioDriverFromString(s).value) == s
    ensures GraphicsDriverFromString(s).Some? ==> GraphicsDriverToString(GraphicsDriverFromString(s).value) == s
    ensures WindowsFloatWhenInactiveFromString(s).Some? ==>
      WindowsFloatWhenInactiveToString(WindowsFloatWhenInactiveFromString(s).value) == s
  {
  }

  // ---------------------------------------------------------------------------
  // Desktop size, spelled "WxH"
  // ---------------------------------------------------------------------------

  datatype DesktopSize = DesktopSize(width: u32, height: u32)

  /** Width and height in decimal around one `x`; parsing the text gives
      the size back. */
  function DesktopSizeToString(d: DesktopSize): (s: string)
    ensures DesktopSizeFromString(s) == Some(d)
  {
    var w := NatToString(d.width);
    var h := NatToString(d.height);
    DigitsHaveNoX(w);
    DigitsHaveNoX(h);
    ParseFormatted(d.width);
    ParseFormatted(d.height);
    var s := w + "x" + h;
    assert s[..|w|] == w && s[|w| + 1..] == h;
    assert OnlySeparatorAt(s, 'x', |w|);
    s
  }

  /** `from_string`: the text must hold exactly one `x`, and the pieces
      before and after it must each parse as a `u32`; those are the width
      and the height. */
  function DesktopSizeFromString(s: string): (r: Option<DesktopSize>)
    ensures r.Some? <==>
      exists i :: OnlySeparatorAt(s, 'x', i) && ParseU32(s[..i]).Some? && ParseU32(s[i + 1..]).Some?
    ensures forall i :: OnlySeparatorAt(s, 'x', i) && ParseU32(s[..i]).Some? && ParseU32(s[i + 1..]).Some? ==>
      r == Some(DesktopSize(ParseU32(s[..i]).value, ParseU32(s[i + 1..]).value))
  {
    SplitInTwo(s, 'x');
    var parts := Split(s, 'x');
    if |parts| == 2 && ParseU32(parts[0]).Some? && ParseU32(parts[1]).Some? then
      Some(DesktopSize(ParseU32(parts[0]).value, ParseU32(parts[1]).value))
    else
      None
  }

  lemma DigitsHaveNoX(s: string)
    requires AllDigits(s)
    ensures 'x' !in s
  {
    forall i | 0 <= i < |s| ensures s[i] != 'x' {
      assert IsDigit(s[i]);
    }
  }

  /** The string side is not a round trip: `u32` parsing accepts a sign and
      leading zeros, which re-encoding drops. */
  lemma DesktopSizeStringSideIsLossy()
    ensures DesktopSizeFromString("+1x02") == Some(DesktopSize(1, 2))
    ensures DesktopSizeToString(DesktopSize(1, 2)) == "1x2"
  {
    SignedSizeParses();
    SmallSizeFormats();
  }

  lemma SmallSizeFormats()
    ensures DesktopSizeToString(DesktopSize(1, 2)) == "1x2"
  {
    assert NatToString(1) == "1" && NatToString(2) == "2";
  }

  lemma SignedSizeParses()
    ensures DesktopSizeFromString("+1x02") == Some(DesktopSize(1, 2))
  {
    SignedOneParses();
    LeadingZeroParses();
    var s := "+1x02";
    assert s[..2] == "+1" && s[3..] == "02";
    assert OnlySeparatorAt(s, 'x', 2);
  }

  lemma SignedOneParses()
    ensures ParseU32("+1") == Some(1)
  {
    assert "1"[..0] == "" && DigitsValue("1") == 1;
    assert UnsignedSpelling("+1", "1");
  }

  lemma LeadingZeroParses()
    ensures ParseU32("02") == Some(2)
  {
    assert "02"[..1] == "0" && "0"[..0] == "";
    assert DigitsValue("02") == 2;
    assert UnsignedSpelling("02", "02");
  }


  // ---------------------------------------------------------------------------
  // Composite settings
  // ---------------------------------------------------------------------------

  datatype DesktopSettings = DesktopSettings(
    desktop: Option<string>,
    desktops: map<string, DesktopSize>,
    showSystray: bool)

  datatype FontReplacement = FontReplacement(original: string, replacement: string)

  datatype DllOverride = DllOverride(dll: string, setting: DllOverrideSetting)

  datatype ShaderModelSettings = ShaderModelSettings(
    maxShaderModelVS: Option<u32>,
    maxShaderModelPS: Option<u32>,
    maxShaderModelGS: Option<u32>,
    maxShaderModelHS: Option<u32>,
    maxShaderModelDS: Option<u32>,
    maxShaderModelCS: Option<u32>)

  function NewShaderModelSettings(): ShaderModelSettings {
    ShaderModelSettings(None, None, None, None, None, None)
  }

  datatype VirtualDesktopSettings = VirtualDesktopSettings(enabled: bool, width: u32, height: u32)

  datatype AppSettings = AppSettings(
    name: string,
    dllOverrides: seq<DllOverride>,
    d3dRenderer: Option<D3DRenderer>,
    offscreenRenderingMode: Option<OffscreenRenderingMode>,
    desktopSettings: Option<DesktopSettings>,
    customSettings: map<string, string>)

  function NewAppSettings(name: string): AppSettings {
    AppSettings(name, [], None, None, None, map[])
  }

  /** One finding of the whole-registry validation sweep. */
  datatype ValidationError = ValidationError(
    keyPath: string,
    valueName: Option<string>,
    errorMessage: string)

  datatype X11DriverSettings = X11DriverSettings(
    decorated: Option<bool>,
    clientSideGraphics: Option<bool>,
    clientSideWithRender: Option<bool>,
    clientSideAntialiasWithRender: Option<bool>,
    clientSideAntialiasWithCore: Option<bool>,
    grabFullscreen: Option<bool>,
    grabPointer: Option<bool>,
    managed: Option<bool>,
    useXRandR: Option<bool>,
    useXVidMode: Option<bool>)

  function NewX11DriverSettings(): X11DriverSettings {
    X11DriverSettings(None, None, None, None, None, None, None, None, None, None)
  }

  datatype DpiSettings = DpiSettings(logPixels: Option<u32>)

  function NewDpiSettings(): DpiSettings {
    DpiSettings(None)
  }

  function DpiSettingsWithDpi(dpi: u32): DpiSettings {
    DpiSettings(Some(dpi))
  }

  datatype MacDriverSettings = MacDriverSettings(
    allowVerticalSync: Option<bool>,
    captureDisplaysForFullscreen: Option<bool>,
    usePreciseScrolling: Option<bool>,
    retinaMode: Option<bool>,
    windowsFloatWhenInactive: Option<WindowsFloatWhenInactive>)

  function NewMacDriverSettings(): MacDriverSettings {
    MacDriverSettings(None, None, None, None, None)
  }
}
