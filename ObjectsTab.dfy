/** ObjectsTab: the catalogue of observing targets. It loads the
    constellation stick figures from a CSV resource, fills the objects table
    and the polar sky plot (a marker per visible object, a curve per
    constellation segment above the horizon), turns the RA/Dec texts of the
    object dialog into nullable numbers, and writes SIMBAD coordinates into
    that dialog. AstroCalc::getObjectInfo is an uninterpreted function
    passed in as `info`. */
module ObjectsTab {
  import opened Wrappers
  import opened Text
  import opened Numbers

  // ----- Constellation file ------------------------------------------

  /** One stick-figure segment: a name and two endpoints, RA in degrees. */
  datatype ConstellationLine = ConstellationLine(name: string, ra1: real, dec1: real, ra2: real, dec2: real)

  /** A text-to-number conversion: QString::toDouble in the program
      (Numbers.ParseNumber); the structural facts below hold for any. */
  type Converter = string -> Option<real>

  /** toDouble over a list of fields: all the values, or None as soon as one
      field does not convert. */
  function ParseAll(fields: seq<string>, toDouble: Converter): (r: Option<seq<real>>)
    ensures r.Some? ==> |r.value| == |fields|
  {
    if fields == [] then Some([])
    else
      match toDouble(fields[0])
      case None => None
      case Some(v) =>
        match ParseAll(fields[1..], toDouble)
        case None => None
        case Some(vs) => Some([v] + vs)
  }

  /** ParseAll succeeds exactly when every field converts, and then holds
      the converted values in order. */
  lemma {:induction false} ParseAllSpec(fields: seq<string>, toDouble: Converter)
    ensures ParseAll(fields, toDouble).Some? <==> forall k :: 0 <= k < |fields| ==> toDouble(fields[k]).Some?
    ensures ParseAll(fields, toDouble).Some? ==>
              forall k :: 0 <= k < |fields| ==> Some(ParseAll(fields, toDouble).value[k]) == toDouble(fields[k])
  {
    if fields != [] {
      ParseAllSpec(fields[1..], toDouble);
      if toDouble(fields[0]).None? {
      } else if ParseAll(fields[1..], toDouble).None? {
        var k :| 0 <= k < |fields[1..]| && toDouble(fields[1..][k]).None?;
        assert toDouble(fields[k + 1]).None?;
      } else {
        forall k | 0 < k < |fields|
          ensures Some(ParseAll(fields, toDouble).value[k]) == toDouble(fields[k])
        {
          assert fields[k] == fields[1..][k - 1];
        }
      }
    }
  }

  /** Fields whose conversions are known give exactly those values. */
  lemma ParseAllValues(fields: seq<string>, values: seq<real>, toDouble: Converter)
    requires |fields| == |values|
    requires forall k :: 0 <= k < |fields| ==> toDouble(fields[k]) == Some(values[k])
    ensures ParseAll(fields, toDouble) == Some(values)
  {
    ParseAllSpec(fields, toDouble);
    assert ParseAll(fields, toDouble).value == values;
  }

  /** One line of the CSV resource: after trimming, a non-blank line of
      exactly five comma-separated parts whose last four convert. */
  function ParseConstellationLine(line: string, toDouble: Converter): Option<ConstellationLine> {
    var t := Trim(line);
    if t == [] then None
    else
      var parts := Split(t, ',');
      if |parts| != 5 then None
      else
        match ParseAll(parts[1..], toDouble)
        case None => None
        case Some(v) => Some(ConstellationLine(parts[0], v[0], v[1], v[2], v[3]))
  }

  /** The segments of a file's lines, in file order. */
  function Constellations(lines: seq<string>, toDouble: Converter): (r: seq<ConstellationLine>)
    ensures |r| <= |lines|
  {
    if lines == [] then []
    else
      var last := ParseConstellationLine(lines[|lines| - 1], toDouble);
      Constellations(lines[..|lines| - 1], toDouble) + (if last.Some? then [last.value] else [])
  }

  /** Every line that parses is loaded. */
  lemma {:induction false} LineLoaded(lines: seq<string>, toDouble: Converter, k: int)
    requires 0 <= k < |lines| && ParseConstellationLine(lines[k], toDouble).Some?
    ensures ParseConstellationLine(lines[k], toDouble).value in Constellations(lines, toDouble)
  {
    var init := lines[..|lines| - 1];
    if k < |init| {
      assert init[k] == lines[k];
      LineLoaded(init, toDouble, k);
    }
  }

  /** Every loaded segment comes from a line of the file. */
  lemma {:induction false} LoadedFromLine(lines: seq<string>, toDouble: Converter, c: ConstellationLine)
    requires c in Constellations(lines, toDouble)
    ensures exists k :: 0 <= k < |lines| && ParseConstellationLine(lines[k], toDouble) == Some(c)
  {
    var init := lines[..|lines| - 1];
    var last := ParseConstellationLine(lines[|lines| - 1], toDouble);
    if c in Constellations(init, toDouble) {
      LoadedFromLine(init, toDouble, c);
      var k :| 0 <= k < |init| && ParseConstellationLine(init[k], toDouble) == Some(c);
      assert lines[k] == init[k];
    } else {
      assert last == Some(c);
    }
  }

  /** Lines that all parse load as exactly their segments, in order. */
  lemma {:induction false} AllLinesLoaded(lines: seq<string>, toDouble: Converter, cs: seq<ConstellationLine>)
    requires |lines| == |cs|
    requires forall k :: 0 <= k < |lines| ==> ParseConstellationLine(lines[k], toDouble) == Some(cs[k])
    ensures Constellations(lines, toDouble) == cs
  {
    if lines != [] {
      var n := |lines| - 1;
      AllLinesLoaded(lines[..n], toDouble, cs[..n]);
      assert ParseConstellationLine(lines[n], toDouble) == Some(cs[n]);
      assert cs == cs[..n] + [cs[n]];
    }
  }

  /** A line that is blank after trimming is dropped. */
  lemma BlankLineDropped(line: string, toDouble: Converter)
    requires forall i :: 0 <= i < |line| ==> IsSpace(line[i])
    ensures ParseConstellationLine(line, toDouble) == None
  {
    TrimEmptyIffBlank(line);
  }

  /** A line with a number of parts other than five is dropped. */
  lemma WrongPartCountDropped(line: string, toDouble: Converter)
    requires CountChar(Trim(line), ',') != 4
    ensures ParseConstellationLine(line, toDouble) == None
  {
  }

  /** A line whose RA or Dec part does not convert is dropped. */
  lemma BadNumberDropped(line: string, k: int, toDouble: Converter)
    requires 1 <= k < 5 && Trim(line) != [] && |Split(Trim(line), ',')| == 5
    requires toDouble(Split(Trim(line), ',')[k]).None?
    ensures ParseConstellationLine(line, toDouble) == None
  {
    var parts := Split(Trim(line), ',');
    ParseAllSpec(parts[1..], toDouble);
    assert parts[1..][k - 1] == parts[k];
  }

  /** A segment written as a CSV line: the name and the four coordinates
      with six decimals, separated by commas. */
  function FormatConstellationLine(c: ConstellationLine): string {
    Join(LineParts(c), ',')
  }

  /** A name the CSV form can carry: no comma, no line break, and no
      leading white space (trimming would eat it). */
  predicate IsPlainName(name: string) {
    ',' !in name && '\n' !in name && (name == [] || !IsSpace(name[0]))
  }

  /** The segment with its coordinates rounded to six decimals. */
  function Rounded(c: ConstellationLine): ConstellationLine {
    ConstellationLine(c.name, Round6(c.ra1), Round6(c.dec1), Round6(c.ra2), Round6(c.dec2))
  }

  /** The five parts of a written line. */
  function LineParts(c: ConstellationLine): seq<string> {
    [c.name, FormatFixed6(c.ra1), FormatFixed6(c.dec1), FormatFixed6(c.ra2), FormatFixed6(c.dec2)]
  }

  /** A field as the writer leaves it: non-empty, without separator or line
      break, and not ending in white space. */
  predicate IsPlainField(f: string) {
    |f| > 0 && ',' !in f && '\n' !in f && !IsSpace(f[|f| - 1])
  }

  lemma Fixed6IsPlainField(x: real)
    ensures IsPlainField(FormatFixed6(x))
  {
    FormatFixed6Chars(x);
  }

  /** Five parts joined with commas, written out. */
  lemma JoinFive(n: string, a: string, b: string, d: string, e: string)
    ensures Join([n, a, b, d, e], ',') == n + "," + a + "," + b + "," + d + "," + e
  {
    var parts := [n, a, b, d, e];
    assert Join(parts[4..], ',') == e;
    assert Join(parts[3..], ',') == d + "," + e;
    assert Join(parts[2..], ',') == b + "," + d + "," + e;
    assert Join(parts[1..], ',') == a + "," + b + "," + d + "," + e;
  }

  /** A line joined from a plain name and four plain fields has no line
      break and nothing for trimming to remove. */
  lemma JoinedLineShape(n: string, a: string, b: string, d: string, e: string)
    requires IsPlainName(n) && IsPlainField(a) && IsPlainField(b) && IsPlainField(d) && IsPlainField(e)
    ensures var line := Join([n, a, b, d, e], ',');
            Trim(line) == line && '\n' !in line
  {
    JoinFive(n, a, b, d, e);
    var tail := "," + a + "," + b + "," + d + "," + e;
    var line := n + tail;
    assert line[|line| - 1] == e[|e| - 1];
    assert line[0] == if n == [] then ',' else n[0];
    TrimOfTrimmed(line);
    assert '\n' !in tail;
    forall i | 0 <= i < |line| ensures line[i] != '\n' {
      if i < |n| {
        assert line[i] == n[i];
      } else {
        assert line[i] == tail[i - |n|];
      }
    }
  }

  /** A line joined from a plain name and four plain fields that convert
      parses to the segment of those values. */
  lemma ParseJoinedLine(parts: seq<string>, values: seq<real>, toDouble: Converter)
    requires |parts| == 5 && |values| == 4 && IsPlainName(parts[0])
    requires forall k :: 1 <= k < 5 ==> IsPlainField(parts[k]) && toDouble(parts[k]) == Some(values[k - 1])
    ensures ParseConstellationLine(Join(parts, ','), toDouble) ==
            Some(ConstellationLine(parts[0], values[0], values[1], values[2], values[3]))
    ensures '\n' !in Join(parts, ',')
  {
    assert parts == [parts[0], parts[1], parts[2], parts[3], parts[4]];
    JoinedLineShape(parts[0], parts[1], parts[2], parts[3], parts[4]);
    SplitJoin(parts, ',');
    ParseAllValues(parts[1..], values, toDouble);
  }

  /** Reading back a written segment with a conversion that inverts the
      six-decimal writer gives the rounded segment; the line holds no line
      break. */
  lemma ParseFormatConstellationLineWith(c: ConstellationLine, toDouble: Converter)
    requires IsPlainName(c.name)
    requires toDouble(FormatFixed6(c.ra1)) == Some(Round6(c.ra1))
    requires toDouble(FormatFixed6(c.dec1)) == Some(Round6(c.dec1))
    requires toDouble(FormatFixed6(c.ra2)) == Some(Round6(c.ra2))
    requires toDouble(FormatFixed6(c.dec2)) == Some(Round6(c.dec2))
    ensures ParseConstellationLine(FormatConstellationLine(c), toDouble) == Some(Rounded(c))
    ensures '\n' !in FormatConstellationLine(c)
  {
    Fixed6IsPlainField(c.ra1);
    Fixed6IsPlainField(c.dec1);
    Fixed6IsPlainField(c.ra2);
    Fixed6IsPlainField(c.dec2);
    ParseJoinedLine(LineParts(c), [Round6(c.ra1), Round6(c.dec1), Round6(c.ra2), Round6(c.dec2)], toDouble);
  }

  lemma ParseFixed6Coordinates(c: ConstellationLine)
    ensures ParseNumber(FormatFixed6(c.ra1)) == Some(Round6(c.ra1))
    ensures ParseNumber(FormatFixed6(c.dec1)) == Some(Round6(c.dec1))
    ensures ParseNumber(FormatFixed6(c.ra2)) == Some(Round6(c.ra2))
    ensures ParseNumber(FormatFixed6(c.dec2)) == Some(Round6(c.dec2))
  {
    ParseFormatFixed6(c.ra1);
    ParseFormatFixed6(c.dec1);
    ParseFormatFixed6(c.ra2);
    ParseFormatFixed6(c.dec2);
  }

  /** Reading back a written segment gives it with its coordinates rounded
      to six decimals. */
  lemma ParseFormatConstellationLine(c: ConstellationLine)
    requires IsPlainName(c.name)
    ensures ParseConstellationLine(FormatConstellationLine(c), ParseNumber) == Some(Rounded(c))
    ensures '\n' !in FormatConstellationLine(c)
  {
    ParseFixed6Coordinates(c);
    ParseFormatConstellationLineWith(c, ParseNumber);
  }

  /** The lines of a file written from segments, one per line. */
  function FormatConstellations(cs: seq<ConstellationLine>): (r: seq<string>)
    ensures |r| == |cs|
  {
    seq(|cs|, k requires 0 <= k < |cs| => FormatConstellationLine(cs[k]))
  }

  /** Loading the lines written for a list of segments gives the list back,
      coordinates rounded to six decimals. */
  lemma LoadFormattedConstellations(cs: seq<ConstellationLine>)
    requires forall k :: 0 <= k < |cs| ==> IsPlainName(cs[k].name)
    ensures Constellations(FormatConstellations(cs), ParseNumber) ==
            seq(|cs|, k requires 0 <= k < |cs| => Rounded(cs[k]))
  {
    var lines := FormatConstellations(cs);
    var rounded := seq(|cs|, k requires 0 <= k < |cs| => Rounded(cs[k]));
    forall k | 0 <= k < |cs| ensures ParseConstellationLine(lines[k], ParseNumber) == Some(rounded[k]) {
      ParseFormatConstellationLine(cs[k]);
    }
    AllLinesLoaded(lines, ParseNumber, rounded);
  }

  /** The text of a constellations file holding the written segments, one
      per line; no segments make an empty file. */
  function ConstellationFileText(cs: seq<ConstellationLine>): string {
    if cs == [] then "" else Join(FormatConstellations(cs), '\n')
  }

  /** A constellations file written line by line from segments with plain
      names loads as those segments, rounded to six decimals; an empty file
      loads as no segments. */
  lemma ConstellationFileRoundTrip(cs: seq<ConstellationLine>)
    requires forall k :: 0 <= k < |cs| ==> IsPlainName(cs[k].name)
    ensures Constellations(Split(ConstellationFileText(cs), '\n'), ParseNumber) ==
            seq(|cs|, k requires 0 <= k < |cs| => Rounded(cs[k]))
  {
    if cs == [] {
      assert Split("", '\n') == [""];
      BlankLineDropped("", ParseNumber);
    } else {
      var lines := FormatConstellations(cs);
      forall k | 0 <= k < |lines| ensures '\n' !in lines[k] {
        ParseFormatConstellationLine(cs[k]);
      }
      SplitJoin(lines, '\n');
      LoadFormattedConstellations(cs);
    }
  }

  /** The CSV resource as QFile presents it: its text, or the reason it
      could not be opened. */
  datatype ConstellationFile = Opened(text: string) | OpenFailed(errorString: string)

  // ----- Objects table and sky plot ------------------------------------

  /** One stored target; RA in hours and Dec in degrees may be null. */
  datatype ObjectData = ObjectData(id: int, name: string, ra: Option<real>, dec: Option<real>, comments: string)

  /** What AstroCalc::getObjectInfo gives for a place and a position: the
      horizontal coordinates now, and the transit time as the table shows it
      (local time, "hh:mm"). */
  datatype ObjectInfo = ObjectInfo(azimuth: real, altitude: real, transitText: string)

  /** getObjectInfo(latitude, longitude, raHours, decDegrees). */
  type Ephemeris = (real, real, real, real) -> ObjectInfo

  /** The texts of one table row: name (with the id as hidden data), RA,
      Dec, transit time and comments. */
  datatype TableRow = TableRow(id: int, name: string, raText: string, decText: string,
                               transitText: string, comments: string)

  /** A labelled point on the polar plot, radius = altitude. */
  datatype Marker = Marker(azimuth: real, altitude: real, caption: string)

  datatype PolarPoint = PolarPoint(azimuth: real, radius: real)

  /** A drawn constellation segment. */
  datatype Curve = Curve(first: PolarPoint, second: PolarPoint)

  /** A nullable coordinate as the table shows it: empty for null, six
      decimals otherwise. */
  function CoordinateText(v: Option<real>): string {
    if v.None? then "" else FormatFixed6(v.value)
  }

  function RowOf(obj: ObjectData, lat: real, lon: real, info: Ephemeris): TableRow {
    var transit :=
      if obj.ra.Some? && obj.dec.Some? then info(lat, lon, obj.ra.value, obj.dec.value).transitText else "";
    TableRow(obj.id, obj.name, CoordinateText(obj.ra), CoordinateText(obj.dec), transit, obj.comments)
  }

  /** The marker an object gets: one when both coordinates are set and it is
      above the horizon. */
  function MarkerOf(obj: ObjectData, lat: real, lon: real, info: Ephemeris): seq<Marker> {
    if obj.ra.Some? && obj.dec.Some? then
      var p := info(lat, lon, obj.ra.value, obj.dec.value);
      if p.altitude > 0.0 then [Marker(p.azimuth, p.altitude, obj.name)] else []
    else []
  }

  /** The curve a segment gets: none when both ends are below the horizon,
      otherwise both ends with their altitudes clamped at 0. The RA of the
      CSV is in degrees and is turned into hours first. */
  function CurveOf(c: ConstellationLine, lat: real, lon: real, info: Ephemeris): seq<Curve> {
    var first := info(lat, lon, Hours(c.ra1), c.dec1);
    var second := info(lat, lon, Hours(c.ra2), c.dec2);
    if first.altitude < 0.0 && second.altitude < 0.0 then []
    else [Curve(PolarPoint(first.azimuth, Max0(first.altitude)), PolarPoint(second.azimuth, Max0(second.altitude)))]
  }

  /** Right ascension in degrees (as in the CSV and in SIMBAD's answer) in
      hours. */
  function Hours(degrees: real): (h: real)
    ensures h * 15.0 == degrees
  {
    degrees / 15.0
  }

  function Max0(x: real): real {
    if x < 0.0 then 0.0 else x
  }

  function TableRows(objects: seq<ObjectData>, lat: real, lon: real, info: Ephemeris): (r: seq<TableRow>)
    ensures |r| == |objects|
  {
    if objects == [] then []
    else TableRows(objects[..|objects| - 1], lat, lon, info) + [RowOf(objects[|objects| - 1], lat, lon, info)]
  }

  function Markers(objects: seq<ObjectData>, lat: real, lon: real, info: Ephemeris): seq<Marker> {
    if objects == [] then []
    else Markers(objects[..|objects| - 1], lat, lon, info) + MarkerOf(objects[|objects| - 1], lat, lon, info)
  }

  function Curves(lines: seq<ConstellationLine>, lat: real, lon: real, info: Ephemeris): seq<Curve> {
    if lines == [] then []
    else Curves(lines[..|lines| - 1], lat, lon, info) + CurveOf(lines[|lines| - 1], lat, lon, info)
  }

  /** Adding an object to the list adds its row and its marker, if any. */
  lemma ObjectsSnoc(objects: seq<ObjectData>, i: int, lat: real, lon: real, info: Ephemeris)
    requires 0 <= i < |objects|
    ensures TableRows(objects[..i + 1], lat, lon, info) ==
            TableRows(objects[..i], lat, lon, info) + [RowOf(objects[i], lat, lon, info)]
    ensures Markers(objects[..i + 1], lat, lon, info) ==
            Markers(objects[..i], lat, lon, info) + MarkerOf(objects[i], lat, lon, info)
  {
    assert objects[..i + 1][..i] == objects[..i];
  }

  /** Adding a segment adds its curve, if any. */
  lemma CurvesSnoc(lines: seq<ConstellationLine>, j: int, lat: real, lon: real, info: Ephemeris)
    requires 0 <= j < |lines|
    ensures Curves(lines[..j + 1], lat, lon, info) == Curves(lines[..j], lat, lon, info) + CurveOf(lines[j], lat, lon, info)
  {
    assert lines[..j + 1][..j] == lines[..j];
  }

  /** Row k of the table shows object k. */
  lemma {:induction false} TableRowAt(objects: seq<ObjectData>, lat: real, lon: real, info: Ephemeris, k: int)
    requires 0 <= k < |objects|
    ensures TableRows(objects, lat, lon, info)[k] == RowOf(objects[k], lat, lon, info)
  {
    var init := objects[..|objects| - 1];
    if k < |init| {
      TableRowAt(init, lat, lon, info, k);
      assert objects[k] == init[k];
    }
  }

  /** A row shows the object's id, name and comments, its coordinates with
      six decimals (empty for null), and a transit time only when both
      coordinates are set. */
  lemma RowShowsObject(obj: ObjectData, lat: real, lon: real, info: Ephemeris)
    ensures var row := RowOf(obj, lat, lon, info);
            row.id == obj.id && row.name == obj.name && row.comments == obj.comments &&
            (row.raText == "" <==> obj.ra.None?) && (row.decText == "" <==> obj.dec.None?) &&
            (obj.ra.Some? ==> ParseNumber(row.raText) == Some(Round6(obj.ra.value))) &&
            (obj.ra.None? || obj.dec.None? ==> row.transitText == "") &&
            (obj.ra.Some? && obj.dec.Some? ==>
               row.transitText == info(lat, lon, obj.ra.value, obj.dec.value).transitText)
  {
    if obj.ra.Some? {
      ParseFormatFixed6(obj.ra.value);
      FormatFixed6Chars(obj.ra.value);
    }
    if obj.dec.Some? {
      FormatFixed6Chars(obj.dec.value);
    }
  }

  /** The Dec cell of a row reads back as the object's Dec rounded to six
      decimals. */
  lemma RowShowsDec(obj: ObjectData, lat: real, lon: real, info: Ephemeris)
    requires obj.dec.Some?
    ensures ParseNumber(RowOf(obj, lat, lon, info).decText) == Some(Round6(obj.dec.value))
  {
    ParseFormatFixed6(obj.dec.value);
  }

  /** Markers are exactly the objects with both coordinates that are above
      the horizon, labelled with their names. */
  lemma {:induction false} MarkersAreVisibleObjects(objects: seq<ObjectData>, lat: real, lon: real, info: Ephemeris)
    ensures forall m :: m in Markers(objects, lat, lon, info) <==>
              exists k :: 0 <= k < |objects| && objects[k].ra.Some? && objects[k].dec.Some? &&
                var p := info(lat, lon, objects[k].ra.value, objects[k].dec.value);
                p.altitude > 0.0 && m == Marker(p.azimuth, p.altitude, objects[k].name)
    ensures |Markers(objects, lat, lon, info)| <= |objects|
  {
    if objects != [] {
      var init := objects[..|objects| - 1];
      MarkersAreVisibleObjects(init, lat, lon, info);
      assert forall k :: 0 <= k < |init| ==> objects[k] == init[k];
    }
  }

  /** No curve point lies below the horizon, a segment is skipped exactly
      when both its ends are below it, and a drawn end is placed at
      max(0, altitude): its altitude when that is not negative, the horizon
      otherwise. */
  lemma CurveOfSpec(c: ConstellationLine, lat: real, lon: real, info: Ephemeris)
    ensures var first := info(lat, lon, Hours(c.ra1), c.dec1);
            var second := info(lat, lon, Hours(c.ra2), c.dec2);
            (CurveOf(c, lat, lon, info) == [] <==> first.altitude < 0.0 && second.altitude < 0.0) &&
            forall cv :: cv in CurveOf(c, lat, lon, info) ==>
              cv.first.radius >= 0.0 && cv.second.radius >= 0.0 &&
              cv.first.azimuth == first.azimuth && cv.second.azimuth == second.azimuth &&
              (first.altitude >= 0.0 ==> cv.first.radius == first.altitude) &&
              (second.altitude >= 0.0 ==> cv.second.radius == second.altitude) &&
              (first.altitude < 0.0 ==> cv.first.radius == 0.0) &&
              (second.altitude < 0.0 ==> cv.second.radius == 0.0)
  {
  }

  /** Every drawn curve point has a non-negative radius. */
  lemma {:induction false} CurvesAboveHorizon(lines: seq<ConstellationLine>, lat: real, lon: real, info: Ephemeris)
    ensures forall cv :: cv in Curves(lines, lat, lon, info) ==> cv.first.radius >= 0.0 && cv.second.radius >= 0.0
    ensures |Curves(lines, lat, lon, info)| <= |lines|
  {
    if lines != [] {
      CurvesAboveHorizon(lines[..|lines| - 1], lat, lon, info);
    }
  }

  // ----- Object dialog ------------------------------------------------

  /** The texts of the object dialog's four line edits when OK is pressed. */
  datatype DialogValues = DialogValues(name: string, ra: string, dec: string, comments: string)

  /** The values handed to ObjectsRepository::addObject/updateObject. */
  datatype ObjectWrite = ObjectWrite(name: string, ra: Option<real>, dec: Option<real>, comments: string)

  /** showObjectDialog followed by the conversions of onAddButtonClicked and
      onEditButtonClicked: every text is trimmed; a blank name rejects the
      dialog and nothing is written; a coordinate that toDouble rejects is
      stored as null, never as 0. */
  function SubmitObject(v: DialogValues): (r: Option<ObjectWrite>)
    ensures r.None? <==> Trim(v.name) == []
    ensures r.Some? ==> r.value.name == Trim(v.name) && r.value.comments == Trim(v.comments) &&
                        r.value.ra == ParseNumber(v.ra) && r.value.dec == ParseNumber(v.dec)
  {
    TrimIdempotent(v.ra);
    TrimIdempotent(v.dec);
    var name := Trim(v.name);
    if name == [] then None
    else Some(ObjectWrite(name, ParseNumber(Trim(v.ra)), ParseNumber(Trim(v.dec)), Trim(v.comments)))
  }

  /** An empty or blank coordinate text is stored as null. */
  lemma BlankIsNull(text: string)
    requires forall i :: 0 <= i < |text| ==> IsSpace(text[i])
    ensures ParseNumber(text) == None
  {
    BlankIsNotNumber(text);
  }

  function RoundedOption(v: Option<real>): Option<real> {
    if v.None? then None else Some(Round6(v.value))
  }

  /** A coordinate shown in the table reads back as itself rounded to six
      decimals, and an empty cell reads back as null. */
  lemma CoordinateTextRoundTrip(v: Option<real>)
    ensures ParseNumber(CoordinateText(v)) == RoundedOption(v)
  {
    if v.Some? {
      ParseFormatFixed6(v.value);
    } else {
      BlankIsNull("");
    }
  }

  /** Confirming the edit dialog without changing anything writes the row's
      object back with its coordinates rounded to six decimals and its nulls
      kept, as long as its name and comments carry no surrounding blanks. */
  lemma EditWithoutChanges(obj: ObjectData, lat: real, lon: real, info: Ephemeris)
    requires Trim(obj.name) == obj.name && obj.name != [] && Trim(obj.comments) == obj.comments
    ensures var row := RowOf(obj, lat, lon, info);
            SubmitObject(DialogValues(row.name, row.raText, row.decText, row.comments)) ==
            Some(ObjectWrite(obj.name, RoundedOption(obj.ra), RoundedOption(obj.dec), obj.comments))
  {
    CoordinateTextRoundTrip(obj.ra);
    CoordinateTextRoundTrip(obj.dec);
  }

  // ----- The tab -----------------------------------------------------

  /** The state ObjectsTab keeps: the loaded segments, what the table and
      the plot show, and the RA/Dec edits of the object dialog while one is
      open (None otherwise). */
  class Tab {
    var constellations: seq<ConstellationLine>
    var rows: seq<TableRow>
    var markers: seq<Marker>
    var curves: seq<Curve>
    var raEdit: Option<string>
    var decEdit: Option<string>

    constructor()
      ensures constellations == [] && rows == [] && markers == [] && curves == []
      ensures raEdit == None && decEdit == None
    {
      constellations, rows, markers, curves := [], [], [], [];
      raEdit, decEdit := None, None;
    }

    /** ObjectsTab::LoadConstellations: on success, the list is replaced by
        the segments of the file's lines in order; when the file cannot be
        opened, a warning is shown and the list is kept. */
    method LoadConstellations(file: ConstellationFile) returns (warning: Option<string>)
      modifies this
      ensures file.OpenFailed? ==>
                warning == Some("Failed to open constellations file: " + file.errorString) &&
                constellations == old(constellations)
      ensures file.Opened? ==> warning == None && constellations == Constellations(Split(file.text, '\n'), ParseNumber)
      ensures rows == old(rows) && markers == old(markers) && curves == old(curves)
      ensures raEdit == old(raEdit) && decEdit == old(decEdit)
    {
      if file.OpenFailed? {
        return Some("Failed to open constellations file: " + file.errorString);
      }
      warning := None;
      constellations := [];
      var lines := Split(file.text, '\n');
      var i := 0;
      while i < |lines|
        invariant 0 <= i <= |lines|
        invariant constellations == Constellations(lines[..i], ParseNumber)
        invariant rows == old(rows) && markers == old(markers) && curves == old(curves)
        invariant raEdit == old(raEdit) && decEdit == old(decEdit)
      {
        assert lines[..i + 1][..i] == lines[..i];
        var line := Trim(lines[i]);
        if line != [] {
          var parts := Split(line, ',');
          if |parts| == 5 {
            var values := ParseAll(parts[1..], ParseNumber);
            if values.Some? {
              var v := values.value;
              constellations := constellations + [ConstellationLine(parts[0], v[0], v[1], v[2], v[3])];
            }
          }
        }
        i := i + 1;
      }
      assert lines[..|lines|] == lines;
    }

    /** ObjectsTab::populateTable for the result of getAllObjects (the list
        and the error message) at the observer's latitude and longitude. On
        an error the table is emptied, a warning is shown and the plot is
        left as it was. */
    method PopulateTable(objects: seq<ObjectData>, errorMessage: string, lat: real, lon: real, info: Ephemeris)
      returns (warning: Option<string>)
      modifies this
      ensures errorMessage != "" ==>
                warning == Some("Failed to load objects: " + errorMessage) && rows == [] &&
                markers == old(markers) && curves == old(curves)
      ensures errorMessage == "" ==>
                warning == None &&
                rows == TableRows(objects, lat, lon, info) &&
                markers == Markers(objects, lat, lon, info) &&
                curves == Curves(constellations, lat, lon, info)
      ensures constellations == old(constellations) && raEdit == old(raEdit) && decEdit == old(decEdit)
    {
      rows := [];
      if errorMessage != "" {
        return Some("Failed to load objects: " + errorMessage);
      }
      warning := None;
      markers := [];
      curves := [];
      var i := 0;
      while i < |objects|
        invariant 0 <= i <= |objects|
        invariant rows == TableRows(objects[..i], lat, lon, info)
        invariant markers == Markers(objects[..i], lat, lon, info)
        invariant curves == [] && constellations == old(constellations)
        invariant raEdit == old(raEdit) && decEdit == old(decEdit)
      {
        var obj := objects[i];
        ObjectsSnoc(objects, i, lat, lon, info);
        var raText := CoordinateText(obj.ra);
        var decText := CoordinateText(obj.dec);
        if obj.ra.Some? && obj.dec.Some? {
          var p := info(lat, lon, obj.ra.value, obj.dec.value);
          rows := rows + [TableRow(obj.id, obj.name, raText, decText, p.transitText, obj.comments)];
          if p.altitude > 0.0 {
            markers := markers + [Marker(p.azimuth, p.altitude, obj.name)];
          }
        } else {
          rows := rows + [TableRow(obj.id, obj.name, raText, decText, "", obj.comments)];
        }
        i := i + 1;
      }
      assert objects[..|objects|] == objects;
      var j := 0;
      while j < |constellations|
        invariant 0 <= j <= |constellations|
        invariant curves == Curves(constellations[..j], lat, lon, info)
        invariant rows == TableRows(objects, lat, lon, info) && markers == Markers(objects, lat, lon, info)
        invariant constellations == old(constellations)
        invariant raEdit == old(raEdit) && decEdit == old(decEdit)
      {
        var line := constellations[j];
        CurvesSnoc(constellations, j, lat, lon, info);
        var first := info(lat, lon, Hours(line.ra1), line.dec1);
        var second := info(lat, lon, Hours(line.ra2), line.dec2);
        if !(first.altitude < 0.0 && second.altitude < 0.0) {
          var points := [PolarPoint(first.azimuth, if 0.0 < first.altitude then first.altitude else 0.0),
                         PolarPoint(second.azimuth, if 0.0 < second.altitude then second.altitude else 0.0)];
          curves := curves + [Curve(points[0], points[1])];
        }
        j := j + 1;
      }
      assert constellations[..|constellations|] == constellations;
    }

    /** ObjectsTab::onCoordinatesReceived: the open dialog's RA edit gets the
        RA in hours (degrees / 15) and the Dec edit the Dec, both with six
        decimals; without an open dialog nothing changes. */
    method OnCoordinatesReceived(ra: real, dec: real, objectName: string)
      modifies this
      ensures raEdit == (if old(raEdit).Some? then Some(FormatFixed6(Hours(ra))) else None)
      ensures decEdit == (if old(decEdit).Some? then Some(FormatFixed6(dec)) else None)
      ensures constellations == old(constellations) && rows == old(rows)
      ensures markers == old(markers) && curves == old(curves)
    {
      var raHours := Hours(ra);
      if raEdit.Some? {
        raEdit := Some(FormatFixed6(raHours));
      }
      if decEdit.Some? {
        decEdit := Some(FormatFixed6(dec));
      }
    }
  }

  /** Coordinates received from SIMBAD and accepted in the dialog are stored
      as the RA in hours and the Dec, each rounded to six decimals. */
  lemma ReceivedCoordinatesStored(name: string, ra: real, dec: real, comments: string)
    requires Trim(name) != []
    ensures SubmitObject(DialogValues(name, FormatFixed6(Hours(ra)), FormatFixed6(dec), comments)) ==
            Some(ObjectWrite(Trim(name), Some(Round6(Hours(ra))), Some(Round6(dec)), Trim(comments)))
  {
    ParseFormatFixed6(Hours(ra));
    ParseFormatFixed6(dec);
  }
}
