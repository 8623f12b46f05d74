/** ObservationsRepository: the mapping of a joined observation row to
    ObservationData (with the angular separation between the target and the
    Moon), and the values addObservation and updateObservation bind.
    qSin, qCos, qAcos and M_PI are parameters, constrained only by the
    facts the model needs. */
module Observations {
  import opened Wrappers
  import opened Numbers

  // ----- Trigonometry --------------------------------------------------

  /** The trigonometric functions and the value of pi the code uses. */
  datatype Trig = Trig(sin: real -> real, cos: real -> real, acos: real -> real, pi: real)

  /** What is assumed of them: pi is positive, cos is even, sin and cos
      satisfy the Pythagorean identity, acos maps [-1, 1] into [0, pi], and
      the values at 0 and pi. */
  ghost predicate ValidTrig(t: Trig) {
    t.pi > 0.0 && CosEven(t) && Pythagorean(t) && AcosRange(t) && SpecialValues(t)
  }

  ghost predicate CosEven(t: Trig) {
    forall x :: t.cos(-x) == t.cos(x)
  }

  ghost predicate Pythagorean(t: Trig) {
    forall x :: t.sin(x) * t.sin(x) + t.cos(x) * t.cos(x) == 1.0
  }

  ghost predicate AcosRange(t: Trig) {
    forall x :: -1.0 <= x <= 1.0 ==> 0.0 <= t.acos(x) <= t.pi
  }

  predicate SpecialValues(t: Trig) {
    t.sin(0.0) == 0.0 && t.cos(0.0) == 1.0 && t.cos(t.pi) == -1.0 &&
    t.acos(1.0) == 0.0 && t.acos(-1.0) == t.pi
  }

  /** qBound(-1.0, x, 1.0). */
  function Clamp(x: real): (r: real)
    ensures -1.0 <= r <= 1.0
    ensures -1.0 <= x <= 1.0 ==> r == x
    ensures x < -1.0 ==> r == -1.0
    ensures x > 1.0 ==> r == 1.0
  {
    if x < -1.0 then -1.0 else if x > 1.0 then 1.0 else x
  }

  /** An RA taken as hours, in radians: h * 15 * pi / 180. */
  function HoursToRadians(h: real, t: Trig): real {
    h * 15.0 * t.pi / 180.0
  }

  function DegreesToRadians(d: real, t: Trig): real {
    d * t.pi / 180.0
  }

  /** The cosine of the distance by the spherical law of cosines, before
      clamping. */
  function CosDistance(objRa: real, objDec: real, moonRa: real, moonDec: real, t: Trig): real {
    var ra1 := HoursToRadians(objRa, t);
    var dec1 := DegreesToRadians(objDec, t);
    var ra2 := HoursToRadians(moonRa, t);
    var dec2 := DegreesToRadians(moonDec, t);
    t.sin(dec1) * t.sin(dec2) + t.cos(dec1) * t.cos(dec2) * t.cos(ra1 - ra2)
  }

  /** A radian angle in degrees: a * 180 / pi. */
  function RadiansToDegrees(a: real, t: Trig): real
    requires t.pi > 0.0
  {
    a * 180.0 / t.pi
  }

  /** The angular separation in degrees, -1 when any of the four
      coordinates is null. The Moon RA is converted with the same hours
      formula as the object RA. */
  function Separation(objRa: Option<real>, objDec: Option<real>, moonRa: Option<real>, moonDec: Option<real>, t: Trig): real
    requires t.pi > 0.0
  {
    if objRa.None? || objDec.None? || moonRa.None? || moonDec.None? then -1.0
    else
      var c := Clamp(CosDistance(objRa.value, objDec.value, moonRa.value, moonDec.value, t));
      AcosDegrees(c, t)
  }

  /** acos(c) * 180 / pi. */
  function AcosDegrees(c: real, t: Trig): real
    requires t.pi > 0.0
  {
    RadiansToDegrees(t.acos(c), t)
  }

  /** An angle in [0, pi] is in [0, 180] degrees. */
  lemma DegreesRange(a: real, t: Trig)
    requires t.pi > 0.0 && 0.0 <= a <= t.pi
    ensures 0.0 <= RadiansToDegrees(a, t) <= 180.0
  {
    var d := RadiansToDegrees(a, t);
    assert d * t.pi == a * 180.0;
    assert (d - 180.0) * t.pi <= 0.0;
    assert d * t.pi >= 0.0;
  }

  /** A separation is -1 exactly when a coordinate is null; otherwise it
      lies in [0, 180] degrees. */
  lemma SeparationRange(objRa: Option<real>, objDec: Option<real>, moonRa: Option<real>, moonDec: Option<real>, t: Trig)
    requires t.pi > 0.0 && AcosRange(t)
    ensures var s := Separation(objRa, objDec, moonRa, moonDec, t);
            (s == -1.0 <==> objRa.None? || objDec.None? || moonRa.None? || moonDec.None?) &&
            (objRa.Some? && objDec.Some? && moonRa.Some? && moonDec.Some? ==> 0.0 <= s <= 180.0)
  {
    if objRa.Some? && objDec.Some? && moonRa.Some? && moonDec.Some? {
      var c := Clamp(CosDistance(objRa.value, objDec.value, moonRa.value, moonDec.value, t));
      DegreesRange(t.acos(c), t);
    }
  }

  /** Swapping the object and the Moon does not change the separation. */
  lemma SeparationSymmetric(objRa: Option<real>, objDec: Option<real>, moonRa: Option<real>, moonDec: Option<real>, t: Trig)
    requires t.pi > 0.0 && CosEven(t)
    ensures Separation(objRa, objDec, moonRa, moonDec, t) == Separation(moonRa, moonDec, objRa, objDec, t)
  {
    if objRa.Some? && objDec.Some? && moonRa.Some? && moonDec.Some? {
      var ra1, ra2 := HoursToRadians(objRa.value, t), HoursToRadians(moonRa.value, t);
      var dec1, dec2 := DegreesToRadians(objDec.value, t), DegreesToRadians(moonDec.value, t);
      assert ra2 - ra1 == -(ra1 - ra2);
      assert t.cos(ra2 - ra1) == t.cos(ra1 - ra2);
      assert CosDistance(objRa.value, objDec.value, moonRa.value, moonDec.value, t) ==
             CosDistance(moonRa.value, moonDec.value, objRa.value, objDec.value, t);
    }
  }

  /** A position is 0 degrees away from itself. */
  lemma SeparationSelf(ra: real, dec: real, t: Trig)
    requires t.pi > 0.0 && Pythagorean(t) && SpecialValues(t)
    ensures Separation(Some(ra), Some(dec), Some(ra), Some(dec), t) == 0.0
  {
    var r := HoursToRadians(ra, t);
    var d := DegreesToRadians(dec, t);
    assert r - r == 0.0;
    assert t.sin(d) * t.sin(d) + t.cos(d) * t.cos(d) == 1.0;
    assert CosDistance(ra, dec, ra, dec, t) == 1.0;
  }

  /** Two points of the celestial equator 12 hours apart are 180 degrees
      apart. */
  lemma AntipodalOnEquator(t: Trig)
    requires t.pi > 0.0 && CosEven(t) && SpecialValues(t)
    ensures Separation(Some(0.0), Some(0.0), Some(12.0), Some(0.0), t) == 180.0
  {
    assert HoursToRadians(12.0, t) == t.pi;
    assert HoursToRadians(0.0, t) - HoursToRadians(12.0, t) == -t.pi;
    assert t.cos(-t.pi) == -1.0;
    assert DegreesToRadians(0.0, t) == 0.0;
    assert CosDistance(0.0, 0.0, 12.0, 0.0, t) == -1.0;
    assert t.pi * 180.0 / t.pi == 180.0 * t.pi / t.pi;
    assert 180.0 * t.pi / t.pi == 180.0;
  }

  // ----- Row mapping ----------------------------------------------------

  /** One row of the joined observations query. Nullable columns are
      options. */
  datatype ObservationRow = ObservationRow(
    id: int, imageCount: int, exposureLength: int, totalExposure: int, comments: Option<string>,
    sessionId: int, objectId: int, cameraId: int, telescopeId: int, filterId: int,
    sessionName: string, sessionDate: string, objectName: string,
    objectRa: Option<real>, objectDec: Option<real>,
    cameraName: string, telescopeName: string, filterName: string,
    moonIllumination: Option<real>, moonRa: Option<real>, moonDec: Option<real>)

  datatype ObservationData = ObservationData(
    id: int, imageCount: int, exposureLength: int, totalExposure: int, comments: string,
    sessionId: int, objectId: int, cameraId: int, telescopeId: int, filterId: int,
    sessionName: string, sessionDate: string, objectName: string,
    cameraName: string, telescopeName: string, filterName: string,
    moonIllumination: real, angularSeparation: real)

  /** The loop body shared by getAllObservations and
      getObservationsByObject: a null text reads as "", a null number as 0. */
  function MapRow(r: ObservationRow, t: Trig): ObservationData
    requires t.pi > 0.0
  {
    ObservationData(
      r.id, r.imageCount, r.exposureLength, r.totalExposure, r.comments.GetOr(""),
      r.sessionId, r.objectId, r.cameraId, r.telescopeId, r.filterId,
      r.sessionName, r.sessionDate, r.objectName, r.cameraName, r.telescopeName, r.filterName,
      r.moonIllumination.GetOr(0.0),
      Separation(r.objectRa, r.objectDec, r.moonRa, r.moonDec, t))
  }

  /** A mapped row keeps every column it copies, and its separation is
      unavailable (-1) exactly when a coordinate is null, in [0, 180]
      otherwise. */
  lemma MapRowSpec(r: ObservationRow, t: Trig)
    requires ValidTrig(t)
    ensures var o := MapRow(r, t);
            o.id == r.id && o.objectId == r.objectId && o.totalExposure == r.totalExposure &&
            (o.angularSeparation == -1.0 <==>
               r.objectRa.None? || r.objectDec.None? || r.moonRa.None? || r.moonDec.None?) &&
            -1.0 <= o.angularSeparation <= 180.0
  {
    SeparationRange(r.objectRa, r.objectDec, r.moonRa, r.moonDec, t);
  }

  datatype Query = Rows(rows: seq<ObservationRow>) | Failed(error: string)

  /** The result of getAllObservations and getObservationsByObject (which
      differ only in their SQL): on a failed query an empty list and
      "Query failed: <error>", otherwise every row mapped, in query order,
      and an empty message. */
  method ReadObservations(q: Query, t: Trig) returns (observations: seq<ObservationData>, errorMessage: string)
    requires t.pi > 0.0
    ensures q.Failed? ==> observations == [] && errorMessage == "Query failed: " + q.error
    ensures q.Rows? ==> errorMessage == "" && |observations| == |q.rows| &&
                        forall k :: 0 <= k < |q.rows| ==> observations[k] == MapRow(q.rows[k], t)
  {
    observations := [];
    errorMessage := "";
    if q.Failed? {
      errorMessage := "Query failed: " + q.error;
      return;
    }
    var i := 0;
    while i < |q.rows|
      invariant 0 <= i <= |q.rows| && |observations| == i
      invariant forall k :: 0 <= k < i ==> observations[k] == MapRow(q.rows[k], t)
    {
      var r := q.rows[i];
      var separation := -1.0;
      if r.objectRa.Some? && r.objectDec.Some? && r.moonRa.Some? && r.moonDec.Some? {
        var cosDistance := CosDistance(r.objectRa.value, r.objectDec.value, r.moonRa.value, r.moonDec.value, t);
        cosDistance := Clamp(cosDistance);
        separation := AcosDegrees(cosDistance, t);
      }
      var obs := ObservationData(
        r.id, r.imageCount, r.exposureLength, r.totalExposure, r.comments.GetOr(""),
        r.sessionId, r.objectId, r.cameraId, r.telescopeId, r.filterId,
        r.sessionName, r.sessionDate, r.objectName, r.cameraName, r.telescopeName, r.filterName,
        r.moonIllumination.GetOr(0.0), separation);
      observations := observations + [obs];
      i := i + 1;
    }
  }

  // ----- Writes -----------------------------------------------------------

  /** `int totalExposure = imageCount * exposureLength`, in `int`. */
  function TotalExposure(imageCount: int, exposureLength: int): (r: int)
    ensures IsInt32(r)
    ensures (r - imageCount * exposureLength) % TwoTo32 == 0
  {
    Wrap32(imageCount * exposureLength)
  }

  /** When the product fits in an `int`, the stored total is the product. */
  lemma TotalExposureFits(imageCount: int, exposureLength: int)
    requires IsInt32(imageCount * exposureLength)
    ensures TotalExposure(imageCount, exposureLength) == imageCount * exposureLength
  {
    Wrap32Fits(imageCount * exposureLength);
  }

  /** 46341 images of 46341 s overflow: the stored total is negative. */
  lemma TotalExposureOverflows()
    ensures TotalExposure(46341, 46341) == 46341 * 46341 - TwoTo32
    ensures TotalExposure(46341, 46341) < 0
  {
  }

  /** The comment bound to the statement: NULL for an empty text. */
  function CommentValue(comments: string): Option<string> {
    if comments == [] then None else Some(comments)
  }

  /** The values addObservation binds (updateObservation binds the same and
      the id). */
  datatype ObservationValues = ObservationValues(
    imageCount: int, exposureLength: int, totalExposure: int, comments: Option<string>,
    sessionId: int, objectId: int, cameraId: int, telescopeId: int, filterId: int)

  function BoundValues(imageCount: int, exposureLength: int, comments: string, sessionId: int,
                       objectId: int, cameraId: int, telescopeId: int, filterId: int): ObservationValues {
    ObservationValues(imageCount, exposureLength, TotalExposure(imageCount, exposureLength),
                      CommentValue(comments), sessionId, objectId, cameraId, telescopeId, filterId)
  }

  /** What addObservation (prefix "Failed to add observation: ") or
      updateObservation (prefix "Failed to update observation: ") reports,
      given the error of the statement, if it failed. */
  function WriteResult(prefix: string, execError: Option<string>): (bool, string) {
    if execError.None? then (true, "") else (false, prefix + execError.value)
  }

  /** What addObservation or updateObservation stores reads back through
      getAllObservations as written: the comment text comes back unchanged
      (an empty one is stored as NULL and read as ""), and the total is the
      product of the counts whenever that fits in an int. */
  lemma WriteThenRead(imageCount: int, exposureLength: int, comments: string, row: ObservationRow, t: Trig)
    requires t.pi > 0.0
    requires row.totalExposure == TotalExposure(imageCount, exposureLength)
    requires row.comments == CommentValue(comments)
    ensures row.comments.None? <==> comments == []
    ensures MapRow(row, t).comments == comments
    ensures IsInt32(imageCount * exposureLength) ==> MapRow(row, t).totalExposure == imageCount * exposureLength
  {
    if IsInt32(imageCount * exposureLength) {
      TotalExposureFits(imageCount, exposureLength);
    }
  }
}
