/** SimbadQuery: the SIMBAD name lookup. The reply is a VOTable (IVOA
    VOTable, TABLEDATA serialisation) read with QXmlStreamReader; the reader
    is modelled by the sequence of events it produces, ending either at the
    end of the document or at an Error event. parseVOTableResponse reads it
    twice: once for the FIELD declarations, once for the TR/TD rows. */
module SimbadQuery {
  import opened Wrappers
  import opened Text
  import opened Numbers

  /** One token of QXmlStreamReader: a start tag with its attributes, an end
      tag, character data, or the error that stops the reader. */
  datatype Event =
    | Start(name: string, attrs: map<string, string>)
    | End(name: string)
    | Text(text: string)
    | Error

  /** QXmlStreamAttributes::value: "" for a missing attribute. */
  function Attr(attrs: map<string, string>, key: string): string {
    if key in attrs then attrs[key] else ""
  }

  /** A FIELD declaration: its ID, name and ucd attributes. */
  datatype Field = Field(id: string, name: string, ucd: string)

  function FieldOf(attrs: map<string, string>): Field {
    Field(Attr(attrs, "ID"), Attr(attrs, "name"), Attr(attrs, "ucd"))
  }

  /** The right-ascension test applied to each FIELD. */
  predicate IsRaField(f: Field) {
    Contains(f.ucd, "pos.eq.ra;meta.main") || Lower(f.name) == "ra"
  }

  /** The declination test, applied only when the RA test fails. */
  predicate IsDecField(f: Field) {
    !IsRaField(f) && (Contains(f.ucd, "pos.eq.dec;meta.main") || Lower(f.name) == "dec")
  }

  predicate IsFieldStart(e: Event) {
    e.Start? && e.name == "FIELD"
  }

  /** The FIELD declarations among `events`, in document order. */
  function FieldList(events: seq<Event>): (fs: seq<Field>)
    ensures |fs| <= |events|
  {
    if events == [] then []
    else
      var last := events[|events| - 1];
      FieldList(events[..|events| - 1]) + (if IsFieldStart(last) then [FieldOf(last.attrs)] else [])
  }

  /** One more event adds at most its own FIELD. */
  lemma FieldListStep(events: seq<Event>, i: int)
    requires 0 <= i < |events|
    ensures FieldList(events[..i + 1]) ==
            FieldList(events[..i]) + (if IsFieldStart(events[i]) then [FieldOf(events[i].attrs)] else [])
  {
    assert events[..i + 1][..i] == events[..i];
  }

  /** Position of the first Error event, or |events| when there is none: the
      first pass reads up to there. */
  function FirstError(events: seq<Event>): (k: nat)
    ensures k <= |events| && (k < |events| ==> events[k].Error?)
    ensures forall j :: 0 <= j < k ==> !events[j].Error?
  {
    if events == [] || events[0].Error? then 0 else 1 + FirstError(events[1..])
  }

  /** The FIELDs the first pass sees. */
  function Fields(events: seq<Event>): seq<Field> {
    FieldList(events[..FirstError(events)])
  }

  function Ids(fields: seq<Field>): (ids: seq<string>)
    ensures |ids| == |fields| && forall k :: 0 <= k < |fields| ==> ids[k] == fields[k].id
  {
    seq(|fields|, k requires 0 <= k < |fields| => fields[k].id)
  }

  /** raFieldId after the first pass: each RA FIELD overwrites it. */
  function RaFieldId(fields: seq<Field>): string {
    if fields == [] then ""
    else if IsRaField(fields[|fields| - 1]) then fields[|fields| - 1].id
    else RaFieldId(fields[..|fields| - 1])
  }

  /** decFieldId after the first pass: each DEC FIELD overwrites it. */
  function DecFieldId(fields: seq<Field>): string {
    if fields == [] then ""
    else if IsDecField(fields[|fields| - 1]) then fields[|fields| - 1].id
    else DecFieldId(fields[..|fields| - 1])
  }

  /** The last RA FIELD decides raFieldId. */
  lemma {:induction false} RaFieldIdIsLast(fields: seq<Field>, k: int)
    requires 0 <= k < |fields| && IsRaField(fields[k])
    requires forall j :: k < j < |fields| ==> !IsRaField(fields[j])
    ensures RaFieldId(fields) == fields[k].id
  {
    if k < |fields| - 1 {
      RaFieldIdIsLast(fields[..|fields| - 1], k);
    }
  }

  /** Without an RA FIELD, raFieldId stays empty. */
  lemma {:induction false} RaFieldIdEmpty(fields: seq<Field>)
    requires forall j :: 0 <= j < |fields| ==> !IsRaField(fields[j])
    ensures RaFieldId(fields) == ""
  {
    if fields != [] {
      RaFieldIdEmpty(fields[..|fields| - 1]);
    }
  }

  /** The last DEC FIELD that is not an RA FIELD decides decFieldId. */
  lemma {:induction false} DecFieldIdIsLast(fields: seq<Field>, k: int)
    requires 0 <= k < |fields| && IsDecField(fields[k])
    requires forall j :: k < j < |fields| ==> !IsDecField(fields[j])
    ensures DecFieldId(fields) == fields[k].id
  {
    if k < |fields| - 1 {
      DecFieldIdIsLast(fields[..|fields| - 1], k);
    }
  }

  /** Without a DEC FIELD, decFieldId stays empty. */
  lemma {:induction false} DecFieldIdEmpty(fields: seq<Field>)
    requires forall j :: 0 <= j < |fields| ==> !IsDecField(fields[j])
    ensures DecFieldId(fields) == ""
  {
    if fields != [] {
      DecFieldIdEmpty(fields[..|fields| - 1]);
    }
  }

  /** QList::indexOf: the first position holding `x`, or -1. */
  function IndexOf(xs: seq<string>, x: string): (r: int)
    ensures -1 <= r < |xs|
    ensures r == -1 <==> x !in xs
    ensures r >= 0 ==> xs[r] == x && x !in xs[..r]
  {
    if xs == [] then -1
    else if xs[0] == x then 0
    else
      var r := IndexOf(xs[1..], x);
      if r == -1 then -1
      else
        assert xs[..r + 1] == [xs[0]] + xs[1..][..r];
        r + 1
  }

  /** QXmlStreamReader::readElementText after a start tag at `i - 1`: the
      character data up to the next end tag, with the error flag set when a
      child element, an error or the end of the input comes first. `next`
      is the position after the last event read. */
  datatype TextRead = TextRead(text: string, next: nat, error: bool)

  function ReadElementText(events: seq<Event>, i: nat, acc: string): (r: TextRead)
    requires i <= |events|
    ensures i <= r.next <= |events|
    ensures !r.error ==> i < r.next
    decreases |events| - i
  {
    if i == |events| then TextRead(acc, i, true)
    else
      match events[i]
      case Text(t) => ReadElementText(events, i + 1, acc + t)
      case End(_) => TextRead(acc, i + 1, false)
      case Start(_, _) => TextRead(acc, i + 1, true)
      case Error => TextRead(acc, i + 1, true)
  }

  /** The inner row loop: the TD texts up to the closing TR, or Hangs where
      the source loop never ends (the input runs out or the reader fails
      before the closing TR). */
  datatype RowRead = RowRead(cells: seq<string>, next: nat) | RowHangs

  function ReadRow(events: seq<Event>, i: nat, cells: seq<string>): (r: RowRead)
    requires i <= |events|
    ensures r.RowRead? ==> i < r.next <= |events|
    decreases |events| - i
  {
    if i == |events| then RowHangs
    else
      match events[i]
      case End(n) =>
        if n == "TR" then RowRead(cells, i + 1) else ReadRow(events, i + 1, cells)
      case Start(n, _) =>
        if n == "TD" then
          var t := ReadElementText(events, i + 1, "");
          if t.error then RowHangs else ReadRow(events, t.next, cells + [t.text])
        else ReadRow(events, i + 1, cells)
      case Text(_) => ReadRow(events, i + 1, cells)
      case Error => RowHangs
  }

  /** The result of parseVOTableResponse with the final values of its `ra`
      and `dec` out-parameters, or Hangs where it never returns. */
  datatype VOTableResult = Parsed(ok: bool, ra: real, dec: real) | Hangs

  /** A row is used when it has cells at both indices and both convert. */
  predicate Acceptable(cells: seq<string>, raIndex: nat, decIndex: nat, toDouble: string -> Option<real>) {
    |cells| > raIndex && |cells| > decIndex &&
    toDouble(cells[raIndex]).Some? && toDouble(cells[decIndex]).Some?
  }

  /** What one row does to `ra`: it is overwritten with the converted cell,
      0 when it does not convert, whenever the row is long enough. */
  function RowValue(cells: seq<string>, raIndex: nat, decIndex: nat, index: nat, current: real, toDouble: string -> Option<real>): real
  {
    if |cells| > raIndex && |cells| > decIndex && |cells| > index then toDouble(cells[index]).GetOr(0.0)
    else current
  }

  /** The second pass from position `i`, with the current `ra` and `dec`. */
  function ScanRows(events: seq<Event>, i: nat, raIndex: nat, decIndex: nat, ra: real, dec: real, toDouble: string -> Option<real>): VOTableResult
    requires i <= |events|
    decreases |events| - i
  {
    if i == |events| then Parsed(false, ra, dec)
    else
      match events[i]
      case Error => Parsed(false, ra, dec)
      case Start(n, _) =>
        if n != "TR" then ScanRows(events, i + 1, raIndex, decIndex, ra, dec, toDouble)
        else
          (match ReadRow(events, i + 1, [])
           case RowHangs => Hangs
           case RowRead(cells, next) =>
             if Acceptable(cells, raIndex, decIndex, toDouble) then
               Parsed(true, toDouble(cells[raIndex]).value, toDouble(cells[decIndex]).value)
             else
               ScanRows(events, next, raIndex, decIndex,
                        RowValue(cells, raIndex, decIndex, raIndex, ra, toDouble),
                        RowValue(cells, raIndex, decIndex, decIndex, dec, toDouble), toDouble))
      case _ => ScanRows(events, i + 1, raIndex, decIndex, ra, dec, toDouble)
  }

  /** SimbadQuery::parseVOTableResponse as written: the column of a
      coordinate is the first FIELD whose ID equals the chosen ID. */
  function ParseVOTable(events: seq<Event>, ra: real, dec: real): VOTableResult {
    var fields := Fields(events);
    var raIndex := IndexOf(Ids(fields), RaFieldId(fields));
    var decIndex := IndexOf(Ids(fields), DecFieldId(fields));
    if raIndex == -1 || decIndex == -1 then Parsed(false, ra, dec)
    else ScanRows(events, 0, raIndex, decIndex, ra, dec, ParseNumber)
  }

  /** The position of the last FIELD that passes `IsRaField`, or -1. */
  function LastRaIndex(fields: seq<Field>): (r: int)
    ensures -1 <= r < |fields|
    ensures r >= 0 ==> IsRaField(fields[r])
    ensures forall j :: r < j < |fields| ==> !IsRaField(fields[j])
  {
    if fields == [] then -1
    else if IsRaField(fields[|fields| - 1]) then |fields| - 1
    else LastRaIndex(fields[..|fields| - 1])
  }

  /** The position of the last FIELD that passes `IsDecField`, or -1. */
  function LastDecIndex(fields: seq<Field>): (r: int)
    ensures -1 <= r < |fields|
    ensures r >= 0 ==> IsDecField(fields[r])
    ensures forall j :: r < j < |fields| ==> !IsDecField(fields[j])
  {
    if fields == [] then -1
    else if IsDecField(fields[|fields| - 1]) then |fields| - 1
    else LastDecIndex(fields[..|fields| - 1])
  }

  /** parseVOTableResponse as evidently intended: the columns are those of
      the FIELDs that matched, and a missing RA or DEC FIELD fails. */
  function ParseVOTableFixed(events: seq<Event>, ra: real, dec: real): VOTableResult {
    var fields := Fields(events);
    var raIndex := LastRaIndex(fields);
    var decIndex := LastDecIndex(fields);
    if raIndex == -1 || decIndex == -1 then Parsed(false, ra, dec)
    else ScanRows(events, 0, raIndex, decIndex, ra, dec, ParseNumber)
  }

  /** One more FIELD adds its ID to the list. */
  lemma IdsAppended(fs: seq<Field>, f: Field)
    ensures Ids(fs + [f]) == Ids(fs) + [f.id]
  {
  }

  /** One more FIELD takes over the RA choice when it passes the RA test. */
  lemma RaAppended(fs: seq<Field>, f: Field)
    ensures RaFieldId(fs + [f]) == if IsRaField(f) then f.id else RaFieldId(fs)
    ensures LastRaIndex(fs + [f]) == if IsRaField(f) then |fs| else LastRaIndex(fs)
  {
    assert (fs + [f])[..|fs|] == fs;
  }

  /** One more FIELD takes over the DEC choice when it passes the DEC test. */
  lemma DecAppended(fs: seq<Field>, f: Field)
    ensures DecFieldId(fs + [f]) == if IsDecField(f) then f.id else DecFieldId(fs)
    ensures LastDecIndex(fs + [f]) == if IsDecField(f) then |fs| else LastDecIndex(fs)
  {
    assert (fs + [f])[..|fs|] == fs;
  }

  /** The first pass of parseVOTableResponse: collect the FIELD IDs and
      remember the chosen RA and DEC IDs and FIELD positions. */
  method ReadFieldDeclarations(events: seq<Event>)
    returns (fieldIds: seq<string>, raFieldId: string, decFieldId: string, raPos: int, decPos: int)
    ensures fieldIds == Ids(Fields(events))
    ensures raFieldId == RaFieldId(Fields(events)) && decFieldId == DecFieldId(Fields(events))
    ensures raPos == LastRaIndex(Fields(events)) && decPos == LastDecIndex(Fields(events))
  {
    fieldIds, raFieldId, decFieldId, raPos, decPos := [], "", "", -1, -1;
    ghost var fields: seq<Field> := [];
    var i := 0;
    while i < |events| && !events[i].Error?
      invariant 0 <= i <= FirstError(events)
      invariant fields == FieldList(events[..i])
      invariant fieldIds == Ids(fields)
      invariant raFieldId == RaFieldId(fields) && decFieldId == DecFieldId(fields)
      invariant raPos == LastRaIndex(fields) && decPos == LastDecIndex(fields)
    {
      FieldListStep(events, i);
      var e := events[i];
      if e.Start? && e.name == "FIELD" {
        var f := FieldOf(e.attrs);
        IdsAppended(fields, f);
        RaAppended(fields, f);
        DecAppended(fields, f);
        if IsRaField(f) {
          raFieldId := f.id;
          raPos := |fieldIds|;
        } else if IsDecField(f) {
          decFieldId := f.id;
          decPos := |fieldIds|;
        }
        fieldIds := fieldIds + [f.id];
        fields := fields + [f];
      }
      i := i + 1;
    }
    assert i == FirstError(events);
  }

  /** The second pass of parseVOTableResponse from the start of the
      document: read rows until one has both coordinates. */
  method ScanDataRows(events: seq<Event>, raIndex: nat, decIndex: nat, ra0: real, dec0: real)
    returns (r: VOTableResult)
    ensures r == ScanRows(events, 0, raIndex, decIndex, ra0, dec0, ParseNumber)
  {
    var ra, dec := ra0, dec0;
    var i := 0;
    while i < |events| && !events[i].Error?
      invariant 0 <= i <= |events|
      invariant ScanRows(events, i, raIndex, decIndex, ra, dec, ParseNumber) == ScanRows(events, 0, raIndex, decIndex, ra0, dec0, ParseNumber)
      decreases |events| - i
    {
      var e := events[i];
      if e.Start? && e.name == "TR" {
        // Read all TD elements of this row.
        var tdValues: seq<string> := [];
        var j := i + 1;
        while j < |events| && !(events[j].End? && events[j].name == "TR")
          invariant i < j <= |events|
          invariant ReadRow(events, j, tdValues) == ReadRow(events, i + 1, [])
          decreases |events| - j
        {
          var t := events[j];
          if t.Error? {
            return Hangs;
          }
          if t.Start? && t.name == "TD" {
            var value := ReadElementText(events, j + 1, "");
            if value.error {
              return Hangs;
            }
            tdValues := tdValues + [value.text];
            j := value.next;
          } else {
            j := j + 1;
          }
        }
        if j == |events| {
          return Hangs;
        }
        if |tdValues| > raIndex && |tdValues| > decIndex {
          var raValue := ParseNumber(tdValues[raIndex]);
          var decValue := ParseNumber(tdValues[decIndex]);
          ra := raValue.GetOr(0.0);
          dec := decValue.GetOr(0.0);
          if raValue.Some? && decValue.Some? {
            return Parsed(true, ra, dec);
          }
        }
        i := j + 1;
      } else {
        i := i + 1;
      }
    }
    return Parsed(false, ra, dec);
  }

  /** SimbadQuery::parseVOTableResponse, as written. */
  method ParseVOTableResponse(events: seq<Event>, ra0: real, dec0: real) returns (r: VOTableResult)
    ensures r == ParseVOTable(events, ra0, dec0)
  {
    var fieldIds, raFieldId, decFieldId, _, _ := ReadFieldDeclarations(events);
    var raIndex := IndexOf(fieldIds, raFieldId);
    var decIndex := IndexOf(fieldIds, decFieldId);
    if raIndex == -1 || decIndex == -1 {
      return Parsed(false, ra0, dec0);
    }
    r := ScanDataRows(events, raIndex, decIndex, ra0, dec0);
  }

  /** SimbadQuery::parseVOTableResponse, using the positions of the
      matching FIELDs. */
  method ParseVOTableResponseFixed(events: seq<Event>, ra0: real, dec0: real) returns (r: VOTableResult)
    ensures r == ParseVOTableFixed(events, ra0, dec0)
  {
    var _, _, _, raIndex, decIndex := ReadFieldDeclarations(events);
    if raIndex == -1 || decIndex == -1 {
      return Parsed(false, ra0, dec0);
    }
    r := ScanDataRows(events, raIndex, decIndex, ra0, dec0);
  }

  // ----- The document as a table -------------------------------------

  /** The events of the TD cells of one row. */
  function CellEvents(cells: seq<string>): (es: seq<Event>)
    ensures |es| == 3 * |cells|
  {
    if cells == [] then []
    else [Start("TD", map[]), Text(cells[0]), End("TD")] + CellEvents(cells[1..])
  }

  /** The events of one TR row. */
  function RowEvents(cells: seq<string>): seq<Event> {
    [Start("TR", map[])] + CellEvents(cells) + [End("TR")]
  }

  /** The events of a TABLEDATA body, row after row. */
  function TableEvents(rows: seq<seq<string>>): seq<Event> {
    if rows == [] then [] else RowEvents(rows[0]) + TableEvents(rows[1..])
  }

  /** Reference definition of the second pass on a table: the first row
      that is long enough and whose two cells convert gives the result;
      each long-enough row before it overwrites `ra` and `dec`. */
  function FirstAccepted(rows: seq<seq<string>>, raIndex: nat, decIndex: nat, ra: real, dec: real, toDouble: string -> Option<real>): VOTableResult {
    if rows == [] then Parsed(false, ra, dec)
    else if Acceptable(rows[0], raIndex, decIndex, toDouble) then
      Parsed(true, toDouble(rows[0][raIndex]).value, toDouble(rows[0][decIndex]).value)
    else
      FirstAccepted(rows[1..], raIndex, decIndex,
                    RowValue(rows[0], raIndex, decIndex, raIndex, ra, toDouble),
                    RowValue(rows[0], raIndex, decIndex, decIndex, dec, toDouble), toDouble)
  }

  /** The result comes from the first acceptable row; later rows are
      ignored. */
  lemma {:induction false} FirstAcceptedIsFirst(rows: seq<seq<string>>, k: int, raIndex: nat, decIndex: nat, ra: real, dec: real, toDouble: string -> Option<real>)
    requires 0 <= k < |rows| && Acceptable(rows[k], raIndex, decIndex, toDouble)
    requires forall j :: 0 <= j < k ==> !Acceptable(rows[j], raIndex, decIndex, toDouble)
    ensures FirstAccepted(rows, raIndex, decIndex, ra, dec, toDouble) ==
            Parsed(true, toDouble(rows[k][raIndex]).value, toDouble(rows[k][decIndex]).value)
  {
    if k > 0 {
      FirstAcceptedIsFirst(rows[1..], k - 1, raIndex, decIndex,
                           RowValue(rows[0], raIndex, decIndex, raIndex, ra, toDouble),
                           RowValue(rows[0], raIndex, decIndex, decIndex, dec, toDouble), toDouble);
    }
  }

  /** Without an acceptable row the result is false. */
  lemma {:induction false} NoRowAccepted(rows: seq<seq<string>>, raIndex: nat, decIndex: nat, ra: real, dec: real, toDouble: string -> Option<real>)
    requires forall j :: 0 <= j < |rows| ==> !Acceptable(rows[j], raIndex, decIndex, toDouble)
    ensures FirstAccepted(rows, raIndex, decIndex, ra, dec, toDouble).Parsed? &&
            !FirstAccepted(rows, raIndex, decIndex, ra, dec, toDouble).ok
  {
    if rows != [] {
      NoRowAccepted(rows[1..], raIndex, decIndex,
                    RowValue(rows[0], raIndex, decIndex, raIndex, ra, toDouble),
                    RowValue(rows[0], raIndex, decIndex, decIndex, dec, toDouble), toDouble);
    }
  }

  /** The inner row loop reads the cells of a row written as TD elements. */
  lemma {:induction false} ReadCells(events: seq<Event>, i: nat, cells: seq<string>, acc: seq<string>, tail: seq<Event>)
    requires i <= |events| && events[i..] == CellEvents(cells) + [End("TR")] + tail
    ensures ReadRow(events, i, acc) == RowRead(acc + cells, i + 3 * |cells| + 1)
    decreases |cells|
  {
    if cells == [] {
      assert events[i] == End("TR");
      assert acc + cells == acc;
    } else {
      assert events[i] == Start("TD", map[]);
      assert events[i + 1] == Text(cells[0]);
      assert events[i + 2] == End("TD");
      assert ReadElementText(events, i + 1, "") == TextRead(cells[0], i + 3, false) by {
        assert ReadElementText(events, i + 1, "") == ReadElementText(events, i + 2, "" + cells[0]);
        assert "" + cells[0] == cells[0];
      }
      assert events[i + 3..] == CellEvents(cells[1..]) + [End("TR")] + tail;
      ReadCells(events, i + 3, cells[1..], acc + [cells[0]], tail);
      assert acc + [cells[0]] + cells[1..] == acc + cells;
    }
  }

  /** A row written as TR and TD elements is read back cell for cell, and
      reading resumes right after it. */
  lemma ReadRowEvents(events: seq<Event>, i: nat, cells: seq<string>, tail: seq<Event>)
    requires i <= |events| && events[i..] == RowEvents(cells) + tail
    ensures i + |RowEvents(cells)| <= |events| && events[i] == Start("TR", map[])
    ensures ReadRow(events, i + 1, []) == RowRead(cells, i + |RowEvents(cells)|)
    ensures events[i + |RowEvents(cells)|..] == tail
  {
    assert events[i + 1..] == CellEvents(cells) + [End("TR")] + tail;
    ReadCells(events, i + 1, cells, [], tail);
    assert [] + cells == cells;
  }

  /** The second pass at a row start: take the row, or go on after it. */
  lemma ScanRowsAtRow(events: seq<Event>, i: nat, cells: seq<string>, next: nat,
                      raIndex: nat, decIndex: nat, ra: real, dec: real, toDouble: string -> Option<real>)
    requires i < next <= |events| && events[i] == Start("TR", map[])
    requires ReadRow(events, i + 1, []) == RowRead(cells, next)
    ensures ScanRows(events, i, raIndex, decIndex, ra, dec, toDouble) ==
            if Acceptable(cells, raIndex, decIndex, toDouble) then
              Parsed(true, toDouble(cells[raIndex]).value, toDouble(cells[decIndex]).value)
            else
              ScanRows(events, next, raIndex, decIndex,
                       RowValue(cells, raIndex, decIndex, raIndex, ra, toDouble),
                       RowValue(cells, raIndex, decIndex, decIndex, dec, toDouble), toDouble)
  {
  }

  /** On a table, the second pass agrees with the reference definition. */
  lemma {:induction false} ScanTable(events: seq<Event>, i: nat, rows: seq<seq<string>>,
                                     raIndex: nat, decIndex: nat, ra: real, dec: real, toDouble: string -> Option<real>)
    requires i <= |events| && events[i..] == TableEvents(rows)
    ensures ScanRows(events, i, raIndex, decIndex, ra, dec, toDouble) == FirstAccepted(rows, raIndex, decIndex, ra, dec, toDouble)
    decreases |rows|
  {
    if rows == [] {
      assert i == |events|;
    } else {
      var cells := rows[0];
      ReadRowEvents(events, i, cells, TableEvents(rows[1..]));
      var next := i + |RowEvents(cells)|;
      ScanRowsAtRow(events, i, cells, next, raIndex, decIndex, ra, dec, toDouble);
      if !Acceptable(cells, raIndex, decIndex, toDouble) {
        var ra', dec' := RowValue(cells, raIndex, decIndex, raIndex, ra, toDouble),
                         RowValue(cells, raIndex, decIndex, decIndex, dec, toDouble);
        ScanTable(events, next, rows[1..], raIndex, decIndex, ra', dec', toDouble);
        assert FirstAccepted(rows, raIndex, decIndex, ra, dec, toDouble) ==
               FirstAccepted(rows[1..], raIndex, decIndex, ra', dec', toDouble);
      }
    }
  }

  /** An event the second pass passes over: neither a TR start nor an
      error. */
  predicate IsHeaderEvent(e: Event) {
    !e.Error? && !(e.Start? && e.name == "TR")
  }

  /** The second pass passes over everything before the first row. */
  lemma {:induction false} SkipHeader(events: seq<Event>, i: nat, h: nat, raIndex: nat, decIndex: nat, ra: real, dec: real, toDouble: string -> Option<real>)
    requires i <= h <= |events|
    requires forall j :: i <= j < h ==> IsHeaderEvent(events[j])
    ensures ScanRows(events, i, raIndex, decIndex, ra, dec, toDouble) == ScanRows(events, h, raIndex, decIndex, ra, dec, toDouble)
    decreases h - i
  {
    if i < h {
      SkipHeader(events, i + 1, h, raIndex, decIndex, ra, dec, toDouble);
    }
  }

  /** A reader error before the first row makes the result false. */
  lemma ErrorBeforeRows(events: seq<Event>, h: nat, raIndex: nat, decIndex: nat, ra: real, dec: real, toDouble: string -> Option<real>)
    requires h < |events| && events[h].Error?
    requires forall j :: 0 <= j < h ==> IsHeaderEvent(events[j])
    ensures ScanRows(events, 0, raIndex, decIndex, ra, dec, toDouble) == Parsed(false, ra, dec)
  {
    SkipHeader(events, 0, h, raIndex, decIndex, ra, dec, toDouble);
  }

  /** Table events declare no FIELD and hold no error. */
  lemma {:induction false} TableEventsPlain(rows: seq<seq<string>>)
    ensures forall j :: 0 <= j < |TableEvents(rows)| ==>
              !IsFieldStart(TableEvents(rows)[j]) && !TableEvents(rows)[j].Error?
  {
    if rows != [] {
      TableEventsPlain(rows[1..]);
      var cells := CellEvents(rows[0]);
      assert forall j :: 0 <= j < |cells| ==> !IsFieldStart(cells[j]) && !cells[j].Error? by {
        CellEventsPlain(rows[0]);
      }
    }
  }

  lemma {:induction false} CellEventsPlain(cells: seq<string>)
    ensures forall j :: 0 <= j < |CellEvents(cells)| ==>
              !IsFieldStart(CellEvents(cells)[j]) && !CellEvents(cells)[j].Error?
  {
    if cells != [] {
      CellEventsPlain(cells[1..]);
    }
  }

  /** Events that declare no FIELD leave the FIELD list alone. */
  lemma {:induction false} FieldListAppend(a: seq<Event>, b: seq<Event>)
    requires forall j :: 0 <= j < |b| ==> !IsFieldStart(b[j])
    ensures FieldList(a + b) == FieldList(a)
    decreases |b|
  {
    if b == [] {
      assert a + b == a;
    } else {
      assert (a + b)[..|a + b| - 1] == a + b[..|b| - 1];
      FieldListAppend(a, b[..|b| - 1]);
    }
  }

  /** A document made of a header without rows or errors followed by a
      table: the FIELDs come from the header and the values from the first
      acceptable row, at the columns the as-written lookup picks. */
  lemma DocumentAsWritten(header: seq<Event>, rows: seq<seq<string>>, ra: real, dec: real)
    requires forall j :: 0 <= j < |header| ==> IsHeaderEvent(header[j])
    ensures var fields := FieldList(header);
            var raIndex := IndexOf(Ids(fields), RaFieldId(fields));
            var decIndex := IndexOf(Ids(fields), DecFieldId(fields));
            ParseVOTable(header + TableEvents(rows), ra, dec) ==
              if raIndex == -1 || decIndex == -1 then Parsed(false, ra, dec)
              else FirstAccepted(rows, raIndex, decIndex, ra, dec, ParseNumber)
  {
    var events := header + TableEvents(rows);
    DocumentFields(header, rows);
    var fields := FieldList(header);
    var raIndex := IndexOf(Ids(fields), RaFieldId(fields));
    var decIndex := IndexOf(Ids(fields), DecFieldId(fields));
    if raIndex != -1 && decIndex != -1 {
      DocumentRows(header, rows, raIndex, decIndex, ra, dec, ParseNumber);
    }
  }

  /** The same document read by the corrected lookup: the columns are the
      positions of the last matching FIELDs. */
  lemma DocumentFixed(header: seq<Event>, rows: seq<seq<string>>, ra: real, dec: real)
    requires forall j :: 0 <= j < |header| ==> IsHeaderEvent(header[j])
    ensures var fields := FieldList(header);
            ParseVOTableFixed(header + TableEvents(rows), ra, dec) ==
              if LastRaIndex(fields) == -1 || LastDecIndex(fields) == -1 then Parsed(false, ra, dec)
              else FirstAccepted(rows, LastRaIndex(fields), LastDecIndex(fields), ra, dec, ParseNumber)
  {
    DocumentFields(header, rows);
    var fields := FieldList(header);
    if LastRaIndex(fields) != -1 && LastDecIndex(fields) != -1 {
      DocumentRows(header, rows, LastRaIndex(fields), LastDecIndex(fields), ra, dec, ParseNumber);
    }
  }

  lemma DocumentFields(header: seq<Event>, rows: seq<seq<string>>)
    requires forall j :: 0 <= j < |header| ==> IsHeaderEvent(header[j])
    ensures Fields(header + TableEvents(rows)) == FieldList(header)
  {
    var events := header + TableEvents(rows);
    TableEventsPlain(rows);
    assert forall j :: 0 <= j < |events| ==> !events[j].Error? by {
      forall j | 0 <= j < |events| ensures !events[j].Error? {
        if j >= |header| {
          assert events[j] == TableEvents(rows)[j - |header|];
        }
      }
    }
    assert FirstError(events) == |events|;
    assert events[..|events|] == events;
    FieldListAppend(header, TableEvents(rows));
  }

  lemma DocumentRows(header: seq<Event>, rows: seq<seq<string>>, raIndex: nat, decIndex: nat, ra: real, dec: real, toDouble: string -> Option<real>)
    requires forall j :: 0 <= j < |header| ==> IsHeaderEvent(header[j])
    ensures ScanRows(header + TableEvents(rows), 0, raIndex, decIndex, ra, dec, toDouble) ==
            FirstAccepted(rows, raIndex, decIndex, ra, dec, toDouble)
  {
    var events := header + TableEvents(rows);
    SkipHeader(events, 0, |header|, raIndex, decIndex, ra, dec, toDouble);
    assert events[|header|..] == TableEvents(rows);
    ScanTable(events, |header|, rows, raIndex, decIndex, ra, dec, toDouble);
  }

  // ----- The empty RA ID -----------------------------------------------

  /** A header with an ID-less FIELD and a DEC FIELD, and no RA FIELD. */
  function NoRaHeader(): seq<Event> {
    [Start("FIELD", map["name" := "oid"]), End("FIELD"),
     Start("FIELD", map["ID" := "d", "name" := "DEC"]), End("FIELD")]
  }

  lemma NoRaHeaderFields()
    ensures FieldList(NoRaHeader()) == [Field("", "oid", ""), Field("d", "DEC", "")]
    ensures forall j :: 0 <= j < |NoRaHeader()| ==> IsHeaderEvent(NoRaHeader()[j])
  {
    var h := NoRaHeader();
    assert h[..0] == [];
    FieldListStep(h, 0);
    FieldListStep(h, 1);
    FieldListStep(h, 2);
    FieldListStep(h, 3);
    assert h[..4] == h;
  }

  lemma NoRaHeaderClassified()
    ensures !IsRaField(Field("", "oid", "")) && !IsRaField(Field("d", "DEC", ""))
    ensures !IsDecField(Field("", "oid", "")) && IsDecField(Field("d", "DEC", ""))
  {
    assert Lower("oid") != "ra";
    assert Lower("oid")[0] == 'o';
    assert Lower("DEC") == "dec";
  }

  lemma ParseFour()
    ensures ParseNumber("4") == Some(4.0) && ParseNumber("5") == Some(5.0)
  {
    ParseFormatInt(4);
    assert FormatInt(4) == "4";
    ParseFormatInt(5);
    assert FormatInt(5) == "5";
  }

  /** As written, a document without any RA FIELD still yields coordinates:
      the empty RA ID finds the ID-less FIELD "oid" at position 0, and its
      cell is taken as the right ascension. The corrected lookup fails. */
  lemma EmptyRaIdTakesIdlessColumn(ra: real, dec: real)
    ensures forall j :: 0 <= j < |FieldList(NoRaHeader())| ==> !IsRaField(FieldList(NoRaHeader())[j])
    ensures ParseVOTable(NoRaHeader() + TableEvents([["5", "4"]]), ra, dec) == Parsed(true, 5.0, 4.0)
    ensures ParseVOTableFixed(NoRaHeader() + TableEvents([["5", "4"]]), ra, dec) == Parsed(false, ra, dec)
  {
    NoRaHeaderFields();
    NoRaHeaderClassified();
    var fields := FieldList(NoRaHeader());
    RaFieldIdEmpty(fields);
    DecFieldIdIsLast(fields, 1);
    assert Ids(fields) == ["", "d"];
    assert IndexOf(["", "d"], "") == 0;
    assert IndexOf(["", "d"], "d") == 1;
    DocumentAsWritten(NoRaHeader(), [["5", "4"]], ra, dec);
    DocumentFixed(NoRaHeader(), [["5", "4"]], ra, dec);
    ParseFour();
    FirstAcceptedIsFirst([["5", "4"]], 0, 0, 1, ra, dec, ParseNumber);
  }

  /** The corrected lookup fails whenever the header has no RA FIELD, and
      otherwise reads the column of the last RA FIELD. */
  lemma FixedNeedsRaField(events: seq<Event>, ra: real, dec: real)
    ensures (forall j :: 0 <= j < |Fields(events)| ==> !IsRaField(Fields(events)[j])) ==>
              ParseVOTableFixed(events, ra, dec) == Parsed(false, ra, dec)
    ensures (forall j :: 0 <= j < |Fields(events)| ==> !IsDecField(Fields(events)[j])) ==>
              ParseVOTableFixed(events, ra, dec) == Parsed(false, ra, dec)
  {
  }

  /** The as-written lookup uses the column of the chosen RA FIELD whenever
      its ID is non-empty and unique among the FIELD IDs: there the two
      parsers agree. */
  lemma AsWrittenAgreesOnUniqueIds(events: seq<Event>, ra: real, dec: real)
    requires var fs := Fields(events);
             forall j, k :: 0 <= j < k < |fs| ==> fs[j].id != fs[k].id
    requires var fs := Fields(events); LastRaIndex(fs) != -1 && LastDecIndex(fs) != -1
    ensures ParseVOTable(events, ra, dec) == ParseVOTableFixed(events, ra, dec)
  {
    var fs := Fields(events);
    var r, d := LastRaIndex(fs), LastDecIndex(fs);
    RaFieldIdIsLast(fs, r);
    DecFieldIdIsLast(fs, d);
    IndexOfUnique(Ids(fs), r);
    IndexOfUnique(Ids(fs), d);
  }

  lemma IndexOfUnique(xs: seq<string>, k: int)
    requires 0 <= k < |xs|
    requires forall i, j :: 0 <= i < j < |xs| ==> xs[i] != xs[j]
    ensures IndexOf(xs, xs[k]) == k
  {
    assert xs[k] in xs;
  }

  // ----- The query entry point ----------------------------------------

  /** Signals SimbadQuery emits. */
  datatype Signal =
    | QueryStarted(objectName: string)
    | CoordinatesReceived(ra: real, dec: real, objectName: string)
    | ErrorOccurred(message: string)

  /** The query object: the name being looked up and whether a request is
      outstanding. */
  class Client {
    var currentObjectName: string
    var requestPending: bool

    constructor()
      ensures currentObjectName == "" && !requestPending
    {
      currentObjectName := "";
      requestPending := false;
    }

    /** SimbadQuery::queryObject: an empty name is refused with an error
        and starts nothing; any other name becomes the current one and a
        request goes out. */
    method QueryObject(objectName: string) returns (signals: seq<Signal>)
      modifies this
      ensures objectName == "" ==>
                signals == [ErrorOccurred("Object name cannot be empty")] &&
                currentObjectName == old(currentObjectName) && requestPending == old(requestPending)
      ensures objectName != "" ==>
                signals == [QueryStarted(objectName)] && currentObjectName == objectName && requestPending
    {
      if objectName == "" {
        return [ErrorOccurred("Object name cannot be empty")];
      }
      requestPending := false;   // cancelQuery
      currentObjectName := objectName;
      signals := [QueryStarted(objectName)];
      requestPending := true;
    }
  }
}
