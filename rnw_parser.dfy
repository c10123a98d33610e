/**
 * `parseRnw`: the whole text of an `.rnw` file to its list of drawings. Row 0
 * holds the format version, which must read as 11. Every later row is ranked
 * by its indentation, parsed by `parseRnwRow`, and then sorted by its type: a
 * `CPNDrawing` row opens a new drawing, a place, transition or arc row is
 * appended to the drawing opened last, and any other row is dropped.
 */
module RnwParser {
  import opened Wrappers
  import opened JsText
  import opened RnwRow

  /** A row's record with the `rank` property that `parseRnw` adds to it. */
  datatype Record = Record(figure: Figure, rank: real)
  {
    /** The record as a JavaScript object: `rank` is written last. */
    function Get(key: string): Option<Value>
    {
      if key == "rank" then Some(Num(Finite(rank))) else figure.Get(key)
    }
  }

  /** The record of a drawing row, its `size` and the `figures` stored into it. */
  datatype Drawing = Drawing(head: Record, size: Number, figures: seq<Record>)

  /** Why a parse is abandoned; `row` is the index of the offending row in the
      text split on newlines (row 0 is the version header). */
  datatype Error =
    | UnsupportedVersion                          // "version not supported"
    | NoIndentation(row: nat)                     // `^(\s+)` finds no match
    | BadRow(row: nat, cause: RowError)           // `parseRnwRow` cannot read the row
    | FigureBeforeDrawing(row: nat)               // a figure row with no drawing open

  /** What the type switch of `parseRnw` does with a record. */
  datatype Role = Opens | Joins | Dropped

  /** A row read before assembly: its record, what the type switch does with
      it, and the number in its last token (the size, should it open a drawing). */
  datatype Entry = Entry(record: Record, role: Role, size: Number)

  /** The only format version accepted. */
  const SupportedVersion: real := 11.0

  function Rows(data: string): (rows: seq<string>)
    ensures |rows| >= 1
  {
    Split(data, '\n')
  }

  /** The version read from the trimmed first row. */
  function Version(data: string): Number
  {
    ParseInt(Trim(Rows(data)[0]))
  }

  /** Nesting depth: the length of the leading whitespace divided by 4. */
  function Rank(row: string): real
  {
    LeadingWhitespace(row) as real / 4.0
  }

  /** The trimmed row split on single spaces, before empty tokens are dropped. */
  function RawRow(row: string): (raw: seq<string>)
    ensures |raw| >= 1
  {
    Split(Trim(row), ' ')
  }

  /** The `size` of a drawing row: the number in its last token. */
  function SizeOf(row: string): Number
  {
    var raw := RawRow(row);
    ParseInt(raw[|raw| - 1])
  }

  /** What row i reads as, or the error reading it raises. */
  function ReadRow(row: string, i: nat): Result<Entry, Error>
  {
    if LeadingWhitespace(row) == 0 then Err(NoIndentation(i))
    else match ParseRow(RawRow(row))
      case Err(e) => Err(BadRow(i, e))
      case Ok(f) =>
        var rec := Record(f, Rank(row));
        Ok(Entry(rec, RoleOf(rec), SizeOf(row)))
  }

  /** The switch on the record's `type` property, as left by its attributes. */
  function RoleOf(rec: Record): Role
  {
    match rec.Get("type")
    case Some(Str(t)) =>
      if t == "CPNDrawing" then Opens else if IsFigureKind(t) then Joins else Dropped
    case _ => Dropped
  }

  /** Rows 1 .. k-1 as read: position p holds row p + 1. */
  function ReadRows(rows: seq<string>, k: nat): (rs: seq<Result<Entry, Error>>)
    requires 1 <= k <= |rows|
    ensures |rs| == k - 1
  {
    if k == 1 then [] else ReadRows(rows, k - 1) + [ReadRow(rows[k - 1], k - 1)]
  }

  lemma {:induction false} ReadRowsAt(rows: seq<string>, k: nat, i: nat)
    requires 1 <= i < k <= |rows|
    ensures ReadRows(rows, k)[i - 1] == ReadRow(rows[i], i)
  {
    if i < k - 1 {
      ReadRowsAt(rows, k - 1, i);
    }
  }

  /**
   * A row is refused when it is not indented; otherwise it reads as
   * `parseRnwRow` reads its tokens, with rank one quarter of its indentation,
   * and an error names the row.
   */
  lemma ReadRowOutcome(row: string, i: nat)
    ensures ReadRow(row, i) == Err(NoIndentation(i)) <==> LeadingWhitespace(row) == 0
    ensures LeadingWhitespace(row) > 0 ==>
      (ReadRow(row, i).Ok? <==> ParseRow(RawRow(row)).Ok?)
      && (ParseRow(RawRow(row)).Err? ==> ReadRow(row, i) == Err(BadRow(i, ParseRow(RawRow(row)).error)))
    ensures ReadRow(row, i).Ok? ==>
      var rec := ReadRow(row, i).value.record;
      rec.figure == ParseRow(RawRow(row)).value
      && rec.rank > 0.0 && 4.0 * rec.rank == LeadingWhitespace(row) as real
      && rec.Get("rank") == Some(Num(Finite(rec.rank)))
    ensures ReadRow(row, i).Err? ==> ReadRow(row, i).error.row == i
  {
  }

  /** The tokens `parseRnwRow` sees are non-empty and hold no space. */
  lemma RowTokens(row: string)
    ensures var tokens := NonEmpty(RawRow(row));
      forall j :: 0 <= j < |tokens| ==> |tokens[j]| > 0 && ' ' !in tokens[j]
  {
    NonEmptyWithout(RawRow(row), ' ');
  }

  /** The size of a drawing row is read from the last of the tokens that
      `parseRnwRow` sees: filtering never removes the last piece. */
  lemma SizeIsLastToken(row: string)
    requires |NonEmpty(RawRow(row))| > 0
    ensures var tokens := NonEmpty(RawRow(row));
      SizeOf(row) == ParseInt(tokens[|tokens| - 1])
  {
    var s := Trim(row);
    var raw := RawRow(row);
    LastPieceIsSuffix(s, ' ');
    assert LastPiece(s, ' ') == raw[|raw| - 1];
    assert s[|s| - 1] != ' ';
    NonEmptyKeepsLast(raw);
  }

  /** rs holds, at position i - 1, row i of rows as read. */
  ghost predicate ReadAll(rows: seq<string>, rs: seq<Result<Entry, Error>>)
  {
    |rows| >= 1 && |rs| == |rows| - 1
    && forall i {:trigger ReadRow(rows[i], i)} :: 1 <= i < |rows| ==> rs[i - 1] == ReadRow(rows[i], i)
  }

  lemma ReadRowsAll(rows: seq<string>)
    requires |rows| >= 1
    ensures ReadAll(rows, ReadRows(rows, |rows|))
  {
    forall i | 1 <= i < |rows|
      ensures ReadRows(rows, |rows|)[i - 1] == ReadRow(rows[i], i)
    {
      ReadRowsAt(rows, |rows|, i);
    }
  }

  /** Every row after the header as read. */
  function Entries(data: string): seq<Result<Entry, Error>>
  {
    ReadRows(Rows(data), |Rows(data)|)
  }

  predicate OpensAt(rs: seq<Result<Entry, Error>>, p: nat)
    requires p < |rs|
  {
    rs[p].Ok? && rs[p].value.role == Opens
  }

  predicate JoinsAt(rs: seq<Result<Entry, Error>>, p: nat)
    requires p < |rs|
  {
    rs[p].Ok? && rs[p].value.role == Joins
  }

  /** The positions before k that open a drawing, in source order. */
  function Openers(rs: seq<Result<Entry, Error>>, k: nat): (o: seq<nat>)
    requires k <= |rs|
    ensures forall j :: 0 <= j < |o| ==> o[j] < k && OpensAt(rs, o[j])
    ensures forall j, j' :: 0 <= j < j' < |o| ==> o[j] < o[j']
    ensures forall p :: 0 <= p < k && OpensAt(rs, p) ==> p in o
  {
    if k == 0 then [] else Openers(rs, k - 1) + (if OpensAt(rs, k - 1) then [k - 1] else [])
  }

  /** The records of the figure rows at positions lo .. hi-1, in source order. */
  function Members(rs: seq<Result<Entry, Error>>, lo: nat, hi: nat): seq<Record>
    requires hi <= |rs|
    decreases hi
  {
    if hi <= lo then []
    else Members(rs, lo, hi - 1) + (if JoinsAt(rs, hi - 1) then [rs[hi - 1].value.record] else [])
  }

  /** The error row p raises, given the rows before it. */
  function Fault(rs: seq<Result<Entry, Error>>, p: nat): Option<Error>
    requires p < |rs|
  {
    if rs[p].Err? then Some(rs[p].error)
    else if JoinsAt(rs, p) && |Openers(rs, p)| == 0 then Some(FigureBeforeDrawing(p + 1))
    else None
  }

  /** No row before position k raises an error. */
  predicate Sound(rs: seq<Result<Entry, Error>>, k: nat)
    requires k <= |rs|
  {
    forall p :: 0 <= p < k ==> Fault(rs, p) == None
  }

  /** The j-th drawing opened before position k: its row's record and size, and
      the figure rows from there up to the next drawing row (or to k). */
  function DrawingFor(rs: seq<Result<Entry, Error>>, k: nat, j: nat): Drawing
    requires k <= |rs|
    requires j < |Openers(rs, k)|
  {
    var o := Openers(rs, k);
    var end := if j + 1 < |o| then o[j + 1] else k;
    Drawing(rs[o[j]].value.record, rs[o[j]].value.size, Members(rs, o[j] + 1, end))
  }

  /** All figures of a list of drawings, drawing after drawing. */
  function Figures(ds: seq<Drawing>): seq<Record>
  {
    if |ds| == 0 then [] else Figures(ds[..|ds| - 1]) + ds[|ds| - 1].figures
  }

  /** A position that raises no error extends a sound prefix. */
  lemma SoundStep(rs: seq<Result<Entry, Error>>, k: nat)
    requires k < |rs|
    requires Sound(rs, k) && Fault(rs, k) == None
    ensures Sound(rs, k + 1)
  {
  }

  /** A position that raises an error makes the whole list unsound. */
  lemma FaultIsFinal(rs: seq<Result<Entry, Error>>, k: nat)
    requires k < |rs|
    requires Fault(rs, k) != None
    ensures !Sound(rs, |rs|)
  {
  }

  /**
   * A text that ends with a newline has an empty last row, which the
   * indentation match refuses: such a text never parses.
   */
  lemma TrailingNewlineFails(data: string)
    requires |data| > 0 && data[|data| - 1] == '\n'
    ensures var rs := Entries(data);
      |rs| >= 1 && rs[|rs| - 1] == Err(NoIndentation(|rs|)) && !Sound(rs, |rs|)
  {
    var rows := Rows(data);
    var last := rows[|rows| - 1];
    LastPieceIsSuffix(data, '\n');
    assert LastPiece(data, '\n') == last;
    assert |last| == 0;
    JoinSplit(data, '\n');
    assert |rows| > 1;
    var rs := Entries(data);
    ReadRowsAt(rows, |rows|, |rows| - 1);
    assert rs[|rs| - 1] == ReadRow(last, |rows| - 1);
    FaultIsFinal(rs, |rs| - 1);
  }

  /** e is the error of the first faulty row: every row before it is sound. */
  ghost predicate Stopped(rs: seq<Result<Entry, Error>>, e: Error)
  {
    !e.UnsupportedVersion? && 1 <= e.row <= |rs|
    && Sound(rs, e.row - 1) && Fault(rs, e.row - 1) == Some(e)
  }

  /** The error raised at position k, after a sound prefix, is where parsing
      stops, and the whole list is then unsound. */
  lemma StopAt(rs: seq<Result<Entry, Error>>, k: nat, e: Error)
    requires k < |rs| && Sound(rs, k)
    requires Fault(rs, k) == Some(e) && !e.UnsupportedVersion? && e.row == k + 1
    ensures Stopped(rs, e) && !Sound(rs, |rs|)
  {
    FaultIsFinal(rs, k);
  }

  /** The drawings built from the positions before k are the ones DrawingFor
      describes, and together they hold exactly the figure rows before k. */
  ghost predicate Assembled(rs: seq<Result<Entry, Error>>, k: nat, ds: seq<Drawing>)
    requires k <= |rs|
  {
    |ds| == |Openers(rs, k)|
    && (forall j :: 0 <= j < |ds| ==> ds[j] == DrawingFor(rs, k, j))
    && Figures(ds) == Members(rs, 0, k)
  }

  /** One more position leaves every drawing but the last as it was. */
  lemma DrawingForEarlier(rs: seq<Result<Entry, Error>>, k: nat, j: nat)
    requires k < |rs|
    requires j + 1 < |Openers(rs, k)|
    ensures j + 1 < |Openers(rs, k + 1)|
    ensures DrawingFor(rs, k + 1, j) == DrawingFor(rs, k, j)
  {
  }

  /** One more position adds that position's figure, if any, to the last
      drawing, unless it opens a drawing of its own. */
  lemma DrawingForLast(rs: seq<Result<Entry, Error>>, k: nat, j: nat)
    requires k < |rs|
    requires j + 1 == |Openers(rs, k)|
    ensures j < |Openers(rs, k + 1)|
    ensures var d := DrawingFor(rs, k, j);
      DrawingFor(rs, k + 1, j) ==
        if JoinsAt(rs, k) then d.(figures := d.figures + [rs[k].value.record]) else d
  {
  }

  /** A drawing row opens a drawing that starts out empty. */
  lemma DrawingForNew(rs: seq<Result<Entry, Error>>, k: nat)
    requires k < |rs|
    requires OpensAt(rs, k)
    ensures |Openers(rs, k + 1)| == |Openers(rs, k)| + 1
    ensures DrawingFor(rs, k + 1, |Openers(rs, k)|) == Drawing(rs[k].value.record, rs[k].value.size, [])
  {
  }

  /** A drawing row appends a new, empty drawing. */
  lemma AssembleOpens(rs: seq<Result<Entry, Error>>, k: nat, ds: seq<Drawing>)
    requires k < |rs|
    requires Assembled(rs, k, ds)
    requires OpensAt(rs, k)
    ensures Assembled(rs, k + 1, ds + [Drawing(rs[k].value.record, rs[k].value.size, [])])
  {
    var ds' := ds + [Drawing(rs[k].value.record, rs[k].value.size, [])];
    DrawingForNew(rs, k);
    forall j | 0 <= j < |ds|
      ensures ds'[j] == DrawingFor(rs, k + 1, j)
    {
      if j + 1 < |ds| {
        DrawingForEarlier(rs, k, j);
      } else {
        DrawingForLast(rs, k, j);
      }
    }
    assert ds'[..|ds'| - 1] == ds;
  }

  /** A figure row is appended to the figures of the last drawing only. */
  lemma AssembleJoins(rs: seq<Result<Entry, Error>>, k: nat, ds: seq<Drawing>)
    requires k < |rs|
    requires Assembled(rs, k, ds)
    requires JoinsAt(rs, k)
    requires |ds| > 0
    ensures var last := ds[|ds| - 1];
      Assembled(rs, k + 1, ds[..|ds| - 1] + [last.(figures := last.figures + [rs[k].value.record])])
  {
    var last := ds[|ds| - 1];
    var ds' := ds[..|ds| - 1] + [last.(figures := last.figures + [rs[k].value.record])];
    forall j | 0 <= j < |ds'|
      ensures ds'[j] == DrawingFor(rs, k + 1, j)
    {
      if j + 1 < |ds| {
        DrawingForEarlier(rs, k, j);
      } else {
        DrawingForLast(rs, k, j);
      }
    }
    assert ds'[..|ds'| - 1] == ds[..|ds| - 1];
  }

  /** Any other row changes nothing. */
  lemma AssembleDropped(rs: seq<Result<Entry, Error>>, k: nat, ds: seq<Drawing>)
    requires k < |rs|
    requires Assembled(rs, k, ds)
    requires rs[k].Ok? && rs[k].value.role == Dropped
    ensures Assembled(rs, k + 1, ds)
  {
    assert !OpensAt(rs, k) && !JoinsAt(rs, k);
    assert Openers(rs, k + 1) == Openers(rs, k);
    assert Members(rs, 0, k + 1) == Members(rs, 0, k);
    forall j | 0 <= j < |ds|
      ensures ds[j] == DrawingFor(rs, k + 1, j)
    {
      if j + 1 < |ds| {
        DrawingForEarlier(rs, k, j);
      } else {
        DrawingForLast(rs, k, j);
      }
    }
  }

  /**
   * One pass of the loop of `parseRnw` up to its type switch: the rank from the
   * leading whitespace, the trimmed row split on spaces, `parseRnwRow`, and the
   * `rank` property added to the record.
   */
  method ReadRnwRow(row: string, i: nat, ghost rows: seq<string>, ghost rs: seq<Result<Entry, Error>>)
    returns (e: Result<Entry, Error>)
    requires ReadAll(rows, rs) && 1 <= i < |rows| && rows[i] == row
    ensures e == rs[i - 1]
    ensures e.Err? ==> !e.error.UnsupportedVersion? && e.error.row == i
  {
    assert rs[i - 1] == ReadRow(row, i);
    var indent := LeadingWhitespace(row);
    if indent == 0 {
      return Err(NoIndentation(i));
    }
    var rank := indent as real / 4.0;
    var rawRow := Split(Trim(row), ' ');
    var parsed := ParseRnwRow(rawRow);
    if parsed.Err? {
      return Err(BadRow(i, parsed.error));
    }
    var figure := Record(parsed.value, rank);
    return Ok(Entry(figure, RoleOf(figure), ParseInt(rawRow[|rawRow| - 1])));
  }

  /**
   * The type switch of `parseRnw` for the record of row i (position k): a
   * drawing row pushes a new drawing with an empty figure list, a figure row is
   * pushed onto the figures of the last drawing (and fails when there is none),
   * any other row is dropped.
   */
  method Dispatch(drawings: seq<Drawing>, entry: Entry, i: nat, ghost rs: seq<Result<Entry, Error>>, ghost k: nat)
    returns (r: Result<seq<Drawing>, Error>)
    requires k < |rs| && rs[k] == Ok(entry) && i == k + 1
    requires Sound(rs, k) && Assembled(rs, k, drawings)
    ensures r.Ok? <==> Fault(rs, k) == None
    ensures r.Ok? ==> Sound(rs, k + 1) && Assembled(rs, k + 1, r.value)
    ensures r.Err? ==> r.error == FigureBeforeDrawing(i) && Stopped(rs, r.error) && !Sound(rs, |rs|)
  {
    var figure := entry.record;
    match entry.role {
      case Opens =>
        SoundStep(rs, k);
        AssembleOpens(rs, k, drawings);
        return Ok(drawings + [Drawing(figure, entry.size, [])]);
      case Joins =>
        if |drawings| == 0 {
          StopAt(rs, k, FigureBeforeDrawing(i));
          return Err(FigureBeforeDrawing(i));
        }
        SoundStep(rs, k);
        AssembleJoins(rs, k, drawings);
        var last := drawings[|drawings| - 1];
        return Ok(drawings[..|drawings| - 1] + [last.(figures := last.figures + [figure])]);
      case Dropped =>
        SoundStep(rs, k);
        AssembleDropped(rs, k, drawings);
        return Ok(drawings);
    }
  }

  /**
   * The row loop of `parseRnw` over rows 1 .. |rows| - 1, whose readings are rs:
   * it stops at the first row that fails and otherwise returns the drawings.
   */
  method AssembleRows(rows: seq<string>, ghost rs: seq<Result<Entry, Error>>) returns (r: Result<seq<Drawing>, Error>)
    requires ReadAll(rows, rs)
    ensures r.Ok? <==> Sound(rs, |rs|)
    ensures r.Ok? ==> Assembled(rs, |rs|, r.value)
    ensures r.Err? ==> Stopped(rs, r.error)
  {
    var drawings: seq<Drawing> := [];
    var i := 1;
    ghost var k := 0;
    while i < |rows|
      invariant 1 <= i <= |rows| && k == i - 1
      invariant Sound(rs, k)
      invariant Assembled(rs, k, drawings)
    {
      var entry := ReadRnwRow(rows[i], i, rows, rs);
      if entry.Err? {
        assert Fault(rs, k) == Some(entry.error);
        StopAt(rs, k, entry.error);
        return Err(entry.error);
      }
      var next := Dispatch(drawings, entry.value, i, rs, k);
      if next.Err? {
        return next;
      }
      drawings := next.value;
      i := i + 1;
      k := k + 1;
    }
    assert k == |rs|;
    return Ok(drawings);
  }

  /**
   * `parseRnw`. Fails with UnsupportedVersion unless the first row reads as
   * version 11; otherwise reads the rows in order, stops at the first faulty
   * row, and returns the drawings with the figures that follow each.
   */
  method ParseRnw(data: string) returns (r: Result<seq<Drawing>, Error>)
    ensures r == Err(UnsupportedVersion) <==> Version(data) != Finite(SupportedVersion)
    ensures var rs := Entries(data);
      Version(data) == Finite(SupportedVersion) ==> (r.Ok? <==> Sound(rs, |rs|))
    ensures var rs := Entries(data);
      r.Ok? ==> Assembled(rs, |rs|, r.value)
    ensures r.Err? && !r.error.UnsupportedVersion? ==> Stopped(Entries(data), r.error)
  {
    var rows := Split(data, '\n');
    if ParseInt(Trim(rows[0])) != Finite(SupportedVersion) {
      return Err(UnsupportedVersion);
    }
    ghost var rs := ReadRows(rows, |rows|);
    ReadRowsAll(rows);
    assert rs == Entries(data);
    r := AssembleRows(rows, rs);
  }
}
