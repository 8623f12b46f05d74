/** SettingsManager: seven user settings kept in member fields, loaded
    from and saved to a JSON object with one key per setting. The JSON
    object is a map from keys to values; reading and writing the file are
    outcomes passed in. */
module Settings {
  import opened Wrappers
  import opened Numbers

  // ----- JSON values ------------------------------------------------------

  /** A JSON value as far as the settings use it: a number (QJsonValue
      keeps integers and doubles alike as numbers), a string, or anything
      else (bool, null, array, object). */
  datatype Value = Number(n: real) | Text(s: string) | OtherValue

  type JsonObject = map<string, Value>

  /** QJsonObject::value: a missing key gives an undefined value. */
  function Get(obj: JsonObject, key: string): Option<Value> {
    if key in obj then Some(obj[key]) else None
  }

  predicate IsWhole(x: real) {
    x.Floor as real == x
  }

  /** QJsonValue::toInt(default): a number that is whole and fits in an
      int, else the default. */
  function ToInt(v: Option<Value>, default: int): int {
    if v.Some? && v.value.Number? && IsWhole(v.value.n) && IsInt32(v.value.n.Floor) then v.value.n.Floor
    else default
  }

  /** QJsonValue::toDouble(default): a number, else the default. */
  function ToDouble(v: Option<Value>, default: real): real {
    if v.Some? && v.value.Number? then v.value.n else default
  }

  /** QJsonValue::toString(default): a string, else the default. */
  function ToText(v: Option<Value>, default: string): string {
    if v.Some? && v.value.Text? then v.value.s else default
  }

  /** An integer stored in JSON reads back as itself. */
  lemma ToIntOfStored(k: int, default: int)
    requires IsInt32(k)
    ensures ToInt(Some(Number(k as real)), default) == k
  {
    assert (k as real).Floor == k;
  }

  // ----- The settings record ---------------------------------------------

  const IlluminationKey := "moon_illumination_warning_percent"
  const SeparationKey := "moon_angular_separation_warning_deg"
  const LatitudeKey := "latitude"
  const LongitudeKey := "longitude"
  const DatabasePathKey := "database_path"
  const StyleKey := "style"
  const ColorSchemeKey := "color_scheme"

  /** Qt::ColorScheme::Unknown; the scheme is kept as its integer value. */
  const ColorSchemeUnknown := 0

  /** The seven setting fields together. */
  datatype SettingsValues = SettingsValues(
    moonIlluminationWarningPercent: int,
    moonAngularSeparationWarningDeg: int,
    latitude: real,
    longitude: real,
    databasePath: string,
    style: string,
    colorScheme: int)

  /** The int fields hold C++ ints. */
  predicate ValidValues(v: SettingsValues) {
    IsInt32(v.moonIlluminationWarningPercent) && IsInt32(v.moonAngularSeparationWarningDeg) &&
    IsInt32(v.colorScheme)
  }

  /** The values the constructor sets. */
  function Defaults(): (v: SettingsValues)
    ensures ValidValues(v)
  {
    SettingsValues(75, 60, 0.0, 0.0, "", "", ColorSchemeUnknown)
  }

  /** What createDefaultSettings assigns: every field but the database
      path is reset. */
  function ResetToDefaults(v: SettingsValues): (r: SettingsValues)
    ensures r.databasePath == v.databasePath
    ensures r.(databasePath := "") == Defaults()
  {
    Defaults().(databasePath := v.databasePath)
  }

  /** The object saveSettings writes. */
  function SavedObject(v: SettingsValues): (obj: JsonObject)
    ensures obj.Keys == {IlluminationKey, SeparationKey, LatitudeKey, LongitudeKey,
                         DatabasePathKey, StyleKey, ColorSchemeKey}
  {
    map[IlluminationKey := Number(v.moonIlluminationWarningPercent as real),
        SeparationKey := Number(v.moonAngularSeparationWarningDeg as real),
        LatitudeKey := Number(v.latitude),
        LongitudeKey := Number(v.longitude),
        DatabasePathKey := Text(v.databasePath),
        StyleKey := Text(v.style),
        ColorSchemeKey := Number(v.colorScheme as real)]
  }

  /** The object createDefaultSettings writes: the saved keys without the
      database path. */
  function DefaultObject(v: SettingsValues): (obj: JsonObject)
    ensures obj.Keys == SavedObject(v).Keys - {DatabasePathKey}
    ensures forall key :: key in obj ==> obj[key] == SavedObject(v)[key]
  {
    map[IlluminationKey := Number(v.moonIlluminationWarningPercent as real),
        SeparationKey := Number(v.moonAngularSeparationWarningDeg as real),
        LatitudeKey := Number(v.latitude),
        LongitudeKey := Number(v.longitude),
        StyleKey := Text(v.style),
        ColorSchemeKey := Number(v.colorScheme as real)]
  }

  /** The fields loadSettings assigns from a JSON object: each key's value
      when it has the right type, the documented default otherwise (and an
      empty database path). */
  function LoadedValues(obj: JsonObject): (v: SettingsValues)
    ensures ValidValues(v)
  {
    SettingsValues(
      ToInt(Get(obj, IlluminationKey), 75),
      ToInt(Get(obj, SeparationKey), 60),
      ToDouble(Get(obj, LatitudeKey), 0.0),
      ToDouble(Get(obj, LongitudeKey), 0.0),
      ToText(Get(obj, DatabasePathKey), ""),
      ToText(Get(obj, StyleKey), ""),
      ToInt(Get(obj, ColorSchemeKey), ColorSchemeUnknown))
  }

  /** Every missing key gives its default: loading an empty object gives
      the constructor's values. */
  lemma LoadMissingKeys(obj: JsonObject)
    ensures var v := LoadedValues(obj);
            (IlluminationKey !in obj ==> v.moonIlluminationWarningPercent == 75) &&
            (SeparationKey !in obj ==> v.moonAngularSeparationWarningDeg == 60) &&
            (LatitudeKey !in obj ==> v.latitude == 0.0) &&
            (LongitudeKey !in obj ==> v.longitude == 0.0) &&
            (DatabasePathKey !in obj ==> v.databasePath == "") &&
            (StyleKey !in obj ==> v.style == "") &&
            (ColorSchemeKey !in obj ==> v.colorScheme == ColorSchemeUnknown)
    ensures obj == map[] ==> LoadedValues(obj) == Defaults()
  {
  }

  /** Loading what saveSettings writes restores every field. */
  lemma LoadSaved(v: SettingsValues)
    requires ValidValues(v)
    ensures LoadedValues(SavedObject(v)) == v
  {
    var obj := SavedObject(v);
    ToIntOfStored(v.moonIlluminationWarningPercent, 75);
    ToIntOfStored(v.moonAngularSeparationWarningDeg, 60);
    ToIntOfStored(v.colorScheme, ColorSchemeUnknown);
    assert Get(obj, IlluminationKey) == Some(Number(v.moonIlluminationWarningPercent as real));
    assert Get(obj, SeparationKey) == Some(Number(v.moonAngularSeparationWarningDeg as real));
    assert Get(obj, ColorSchemeKey) == Some(Number(v.colorScheme as real));
  }

  /** Loading what createDefaultSettings writes gives the defaults: the
      database path, absent from that file, reads back empty even when the
      object held one. */
  lemma LoadDefaultObject(v: SettingsValues)
    ensures LoadedValues(DefaultObject(ResetToDefaults(v))) == Defaults()
  {
    var d := ResetToDefaults(v);
    var obj := DefaultObject(d);
    ToIntOfStored(75, 75);
    ToIntOfStored(60, 60);
    ToIntOfStored(ColorSchemeUnknown, ColorSchemeUnknown);
    assert Get(obj, IlluminationKey) == Some(Number(75 as real));
    assert Get(obj, SeparationKey) == Some(Number(60 as real));
    assert Get(obj, ColorSchemeKey) == Some(Number(ColorSchemeUnknown as real));
    assert Get(obj, DatabasePathKey) == None;
  }

  // ----- Files ------------------------------------------------------------

  /** What writing the settings file did. */
  datatype WriteOutcome = Written | OpenFailed(error: string) | WriteFailed(error: string)

  /** What reading the settings file gave: it could not be opened, or its
      text parsed to a JSON object, or to something else (invalid JSON, an
      array, ...). */
  datatype SettingsFile = Unreadable | JsonObjectFile(obj: JsonObject) | NotAnObject

  /** The message saveSettings emits for a failed write, if any. */
  function SaveError(outcome: WriteOutcome): (r: Option<string>)
    ensures r.None? <==> outcome.Written?
  {
    match outcome
    case Written => None
    case OpenFailed(e) => Some("Failed to save settings: " + e)
    case WriteFailed(e) => Some("Failed to write settings: " + e)
  }

  /** The two failure messages differ in the verb ("save" or "write"). */
  lemma FailurePrefixesDiffer(e1: string, e2: string)
    ensures "Failed to save settings: " + e1 != "Failed to write settings: " + e2
  {
    assert ("Failed to save settings: " + e1)[10] == 's';
    assert ("Failed to write settings: " + e2)[10] == 'w';
  }

  /** The message tells the user which step failed (opening the file or
      writing it) and carries that step's error: different failures never
      produce the same message. */
  lemma SaveErrorNamesStep(a: WriteOutcome, b: WriteOutcome)
    requires SaveError(a) == SaveError(b)
    ensures a == b
  {
    match (a, b)
    case (OpenFailed(e1), WriteFailed(e2)) => FailurePrefixesDiffer(e1, e2);
    case (WriteFailed(e1), OpenFailed(e2)) => FailurePrefixesDiffer(e2, e1);
    case (OpenFailed(e1), OpenFailed(e2)) =>
      assert e2 == SaveError(a).value[|"Failed to save settings: "|..];
    case (WriteFailed(e1), WriteFailed(e2)) =>
      assert e2 == SaveError(a).value[|"Failed to write settings: "|..];
    case _ =>
  }

  // ----- The manager --------------------------------------------------------

  class SettingsManager {
    var moonIlluminationWarningPercent: int
    var moonAngularSeparationWarningDeg: int
    var latitude: real
    var longitude: real
    var databasePath: string
    var style: string
    var colorScheme: int
    var initialized: bool

    /** The seven setting fields as one value. */
    function Values(): SettingsValues
      reads this
    {
      SettingsValues(moonIlluminationWarningPercent, moonAngularSeparationWarningDeg,
                     latitude, longitude, databasePath, style, colorScheme)
    }

    predicate Valid()
      reads this
    {
      ValidValues(Values())
    }

    constructor()
      ensures Values() == Defaults() && !initialized && Valid()
    {
      moonIlluminationWarningPercent := 75;
      moonAngularSeparationWarningDeg := 60;
      latitude := 0.0;
      longitude := 0.0;
      databasePath := "";
      style := "";
      colorScheme := ColorSchemeUnknown;
      initialized := false;
    }

    /** createDefaultSettings: resets the fields (all but the database path),
        then writes them; `written` is the object it writes. The result is
        true only when the write succeeded. */
    method CreateDefaultSettings(outcome: WriteOutcome) returns (ok: bool, written: JsonObject)
      requires Valid()
      modifies this
      ensures Valid()
      ensures Values() == ResetToDefaults(old(Values()))
      ensures initialized == old(initialized)
      ensures written == DefaultObject(Values())
      ensures ok <==> outcome.Written?
    {
      moonIlluminationWarningPercent := 75;
      moonAngularSeparationWarningDeg := 60;
      latitude := 0.0;
      longitude := 0.0;
      style := "";
      colorScheme := ColorSchemeUnknown;
      written := map[IlluminationKey := Number(moonIlluminationWarningPercent as real),
                     SeparationKey := Number(moonAngularSeparationWarningDeg as real),
                     LatitudeKey := Number(latitude),
                     LongitudeKey := Number(longitude),
                     StyleKey := Text(style),
                     ColorSchemeKey := Number(colorScheme as real)];
      ok := outcome.Written?;
    }

    /** loadSettings: false, with no field changed, when the file cannot be
        read or does not hold a JSON object; otherwise every field is
        assigned from the object. */
    method LoadSettings(file: SettingsFile) returns (ok: bool)
      requires Valid()
      modifies this
      ensures Valid()
      ensures initialized == old(initialized)
      ensures ok <==> file.JsonObjectFile?
      ensures !ok ==> Values() == old(Values())
      ensures ok ==> Values() == LoadedValues(file.obj)
    {
      if !file.JsonObjectFile? {
        return false;
      }
      var obj := file.obj;
      moonIlluminationWarningPercent := ToInt(Get(obj, IlluminationKey), 75);
      moonAngularSeparationWarningDeg := ToInt(Get(obj, SeparationKey), 60);
      latitude := ToDouble(Get(obj, LatitudeKey), 0.0);
      longitude := ToDouble(Get(obj, LongitudeKey), 0.0);
      databasePath := ToText(Get(obj, DatabasePathKey), "");
      style := ToText(Get(obj, StyleKey), "");
      colorScheme := ToInt(Get(obj, ColorSchemeKey), ColorSchemeUnknown);
      return true;
    }

    /** saveSettings: writes all seven keys; on failure the result is false
        and the emitted error names the step that failed. */
    method SaveSettings(outcome: WriteOutcome) returns (ok: bool, written: JsonObject, error: Option<string>)
      ensures ok <==> outcome.Written?
      ensures written == SavedObject(Values())
      ensures error == SaveError(outcome)
    {
      written := map[IlluminationKey := Number(moonIlluminationWarningPercent as real),
                     SeparationKey := Number(moonAngularSeparationWarningDeg as real),
                     LatitudeKey := Number(latitude),
                     LongitudeKey := Number(longitude),
                     DatabasePathKey := Text(databasePath),
                     StyleKey := Text(style),
                     ColorSchemeKey := Number(colorScheme as real)];
      match outcome {
        case Written =>
          ok, error := true, None;
        case OpenFailed(e) =>
          ok, error := false, Some("Failed to save settings: " + e);
        case WriteFailed(e) =>
          ok, error := false, Some("Failed to write settings: " + e);
      }
    }

    /** initialize: creates the settings directory if missing, then writes
        the defaults when there is no settings file or loads the file there
        is. The manager becomes initialized only when both steps succeed;
        each failure emits its own error. */
    method Initialize(settingsDir: string, dirExists: bool, mkpathOk: bool, fileExists: bool,
                      writeOutcome: WriteOutcome, file: SettingsFile)
      returns (ok: bool, error: Option<string>)
      requires Valid()
      modifies this
      ensures Valid()
      ensures !dirExists && !mkpathOk ==>
                !ok && error == Some("Failed to create settings directory: " + settingsDir) &&
                Values() == old(Values()) && initialized == old(initialized)
      ensures (dirExists || mkpathOk) && !fileExists ==>
                Values() == ResetToDefaults(old(Values())) &&
                (ok <==> writeOutcome.Written?) &&
                (!ok ==> error == Some("Failed to create default settings file"))
      ensures (dirExists || mkpathOk) && fileExists ==>
                (ok <==> file.JsonObjectFile?) &&
                (ok ==> Values() == LoadedValues(file.obj)) &&
                (!ok ==> Values() == old(Values()) && error == Some("Failed to load settings file"))
      ensures ok ==> error.None? && initialized
      ensures !ok ==> initialized == old(initialized)
    {
      error := None;
      if !dirExists && !mkpathOk {
        return false, Some("Failed to create settings directory: " + settingsDir);
      }
      if !fileExists {
        var created, _ := CreateDefaultSettings(writeOutcome);
        if !created {
          return false, Some("Failed to create default settings file");
        }
      } else {
        var loaded := LoadSettings(file);
        if !loaded {
          return false, Some("Failed to load settings file");
        }
      }
      initialized := true;
      ok := true;
    }

    // Setters: each assigns its own field when the value differs.

    method SetMoonIlluminationWarningPercent(value: int)
      requires IsInt32(value) && Valid()
      modifies this
      ensures Valid() && initialized == old(initialized)
      ensures Values() == old(Values()).(moonIlluminationWarningPercent := value)
    {
      if moonIlluminationWarningPercent != value {
        moonIlluminationWarningPercent := value;
      }
    }

    method SetMoonAngularSeparationWarningDeg(value: int)
      requires IsInt32(value) && Valid()
      modifies this
      ensures Valid() && initialized == old(initialized)
      ensures Values() == old(Values()).(moonAngularSeparationWarningDeg := value)
    {
      if moonAngularSeparationWarningDeg != value {
        moonAngularSeparationWarningDeg := value;
      }
    }

    method SetLatitude(value: real)
      requires Valid()
      modifies this
      ensures Valid() && initialized == old(initialized)
      ensures Values() == old(Values()).(latitude := value)
    {
      if latitude != value {
        latitude := value;
      }
    }

    method SetLongitude(value: real)
      requires Valid()
      modifies this
      ensures Valid() && initialized == old(initialized)
      ensures Values() == old(Values()).(longitude := value)
    {
      if longitude != value {
        longitude := value;
      }
    }

    method SetDatabasePath(value: string)
      requires Valid()
      modifies this
      ensures Valid() && initialized == old(initialized)
      ensures Values() == old(Values()).(databasePath := value)
    {
      if databasePath != value {
        databasePath := value;
      }
    }

    method SetStyle(value: string)
      requires Valid()
      modifies this
      ensures Valid() && initialized == old(initialized)
      ensures Values() == old(Values()).(style := value)
    {
      if style != value {
        style := value;
      }
    }

    method SetColorScheme(value: int)
      requires IsInt32(value) && Valid()
      modifies this
      ensures Valid() && initialized == old(initialized)
      ensures Values() == old(Values()).(colorScheme := value)
    {
      if colorScheme != value {
        colorScheme := value;
      }
    }
  }

  /** Saving and then loading the written object leaves the manager's
      settings as they were. */
  method SaveThenLoad(m: SettingsManager) returns (ok: bool)
    requires m.Valid()
    modifies m
    ensures ok && m.Values() == old(m.Values()) && m.initialized == old(m.initialized)
  {
    var saved, written, _ := m.SaveSettings(Written);
    LoadSaved(m.Values());
    ok := m.LoadSettings(JsonObjectFile(written));
  }
}
