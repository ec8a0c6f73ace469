/** `SettingsService`: the application settings loaded once from browser storage, the
    system's light/dark preference reported by the page, and the theme that results. */
module Settings {
  import opened Text
  import opened Core
  import opened Smoothing

  datatype ThemeMode = System | Light | Dark

  datatype Shortcut = Shortcut(action: string, keys: string)

  datatype AppSettings = AppSettings(
    theme: ThemeMode,
    savedColors: seq<string>,
    shortcuts: seq<Shortcut>,
    showDebugOverlay: bool,
    lightCanvasColor: string,
    darkCanvasColor: string,
    smoothing: SmoothingType,
    extremeAutoSmoothing: bool,
    drawToggleKey: string,
    selectModeKey: string)

  /** `new AppSettings()`. */
  const Defaults := AppSettings(System, [], [], false, "#ffffff", "#2b2b2b", QuadraticBezier, false, "d", "s")

  datatype Service = Service(settings: AppSettings, systemPrefersDark: bool)

  /** The static `Instance` slot. */
  datatype Statics = Statics(instance: Option<Service>)

  /** The settings a service starts with: what storage holds under its key, when that
      is present, not blank and deserializes to an object; the defaults otherwise. The
      JSON decoder is a parameter. */
  function Load(stored: Option<string>, decode: string -> Option<AppSettings>): (s: AppSettings)
    ensures stored.None? || IsBlank(stored.value) ==> s == Defaults
    ensures stored.Some? && !IsBlank(stored.value) ==>
      s == (if decode(stored.value).Some? then decode(stored.value).value else Defaults)
  {
    if stored.Some? && !IsBlank(stored.value) then
      match decode(stored.value)
      case Some(loaded) => loaded
      case None => Defaults
    else Defaults
  }

  /** The storage key the settings live under. */
  const Key := "app-settings"

  /** What browser storage holds under `key`, if anything. */
  function Stored(storage: map<string, string>, key: string): (v: Option<string>)
    ensures v.Some? <==> key in storage
  {
    if key in storage then Some(storage[key]) else None
  }

  /** `Save`: the serialized settings replace whatever was under the key; no other key
      is touched. The JSON encoder is a parameter. */
  function Save(storage: map<string, string>, svc: Service, encode: AppSettings -> string): (r: map<string, string>)
    ensures Key in r && r[Key] == encode(svc.settings)
    ensures forall k :: k in storage && k != Key ==> k in r && r[k] == storage[k]
    ensures r.Keys == storage.Keys + {Key}
  {
    storage[Key := encode(svc.settings)]
  }

  /** A service created after a save starts with the saved settings, provided the JSON
      encoding is never blank and decodes back to what was encoded. */
  lemma SaveThenCreate(st: Statics, storage: map<string, string>, svc: Service,
                       encode: AppSettings -> string, decode: string -> Option<AppSettings>)
    requires !IsBlank(encode(svc.settings)) && decode(encode(svc.settings)) == Some(svc.settings)
    ensures Create(st, Stored(Save(storage, svc, encode), Key), decode).1.settings == svc.settings
  {
  }

  /** The constructor: load, then publish the new service as `Instance`. */
  function Create(st: Statics, stored: Option<string>, decode: string -> Option<AppSettings>): (r: (Statics, Service))
    ensures r.0.instance == Some(r.1)
    ensures !r.1.systemPrefersDark
    ensures stored.None? ==> r.1.settings == Defaults
  {
    var svc := Service(Load(stored, decode), false);
    (Statics(Some(svc)), svc)
  }

  /** `EffectiveTheme`: an explicit choice wins; `System` follows the preference. */
  function EffectiveTheme(svc: Service): (t: ThemeMode)
    ensures t != System
    ensures svc.settings.theme != System ==> t == svc.settings.theme
    ensures svc.settings.theme == System ==> (t == Dark <==> svc.systemPrefersDark)
  {
    match svc.settings.theme
    case System => if svc.systemPrefersDark then Dark else Light
    case _ => svc.settings.theme
  }

  /** `UpdateSystemTheme`, called from the page: records the preference on `Instance`,
      if there is one. */
  function UpdateSystemTheme(st: Statics, dark: bool): (r: Statics)
    ensures st.instance.None? ==> r == st
    ensures st.instance.Some? ==> r.instance.Some? && r.instance.value.systemPrefersDark == dark
    ensures st.instance.Some? ==> r.instance.value.settings == st.instance.value.settings
  {
    match st.instance
    case None => st
    case Some(svc) => Statics(Some(svc.(systemPrefersDark := dark)))
  }

  /** An explicit theme is unaffected by what the system reports. */
  lemma ExplicitThemeIgnoresSystem(st: Statics, dark: bool)
    requires st.instance.Some? && st.instance.value.settings.theme != System
    ensures EffectiveTheme(UpdateSystemTheme(st, dark).instance.value) == EffectiveTheme(st.instance.value)
  {
  }

  /** With the `System` theme the effective theme after an update is the one reported. */
  lemma SystemThemeFollowsUpdate(st: Statics, dark: bool)
    requires st.instance.Some? && st.instance.value.settings.theme == System
    ensures EffectiveTheme(UpdateSystemTheme(st, dark).instance.value) == (if dark then Dark else Light)
  {
  }
}
