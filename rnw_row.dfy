/**
 * One row of an `.rnw` file after it has been trimmed and split on spaces:
 * `parseRnwRow` turns its tokens into a figure record. Token 0 names the
 * figure class (its type is the text after the last dot); for places,
 * transitions and arcs token 3 is an attribute count N, tokens 3i+1..3i+3 are
 * the i-th (name, type tag, value) triple, and tokens 3N+4..3N+7 are x, y,
 * width and height.
 */
module RnwRow {
  import opened Wrappers
  import opened JsText

  /** A property value of a figure record: a raw token or a parsed number. */
  datatype Value = Str(text: string) | Num(number: Number)

  /** The fixed tail of a place, transition or arc row. */
  datatype Geometry = Geometry(x: Number, y: Number, width: Number, height: Number)

  /**
   * The record `parseRnwRow` builds: its `type`, the decoded attributes, and
   * for the three figure kinds the geometry tail.
   */
  datatype Figure = Figure(kind: string, attrs: map<string, Value>, geometry: Option<Geometry>)
  {
    /** The record seen as the JavaScript object it is built into: `type` is
        written first, then the attributes, then x, y, width and height, so each
        later write hides an earlier one under the same name. */
    function Get(key: string): Option<Value>
    {
      if geometry.Some? && key == "x" then Some(Num(geometry.value.x))
      else if geometry.Some? && key == "y" then Some(Num(geometry.value.y))
      else if geometry.Some? && key == "width" then Some(Num(geometry.value.width))
      else if geometry.Some? && key == "height" then Some(Num(geometry.value.height))
      else if key in attrs then Some(attrs[key])
      else if key == "type" then Some(Str(kind))
      else None
    }
  }

  /** Why a row cannot be turned into a record. */
  datatype RowError =
    | BlankRow                 // no token at all, so there is no type to read
    | MalformedCount           // token 3 of a figure row is not a decimal count
    | TooFewTokens(need: nat)  // a figure row shorter than its count demands

  /** The row types whose attributes and geometry are decoded. */
  predicate IsFigureKind(t: string)
  {
    t == "PlaceFigure" || t == "TransitionFigure" || t == "ArcConnection"
  }

  /** The type tag, quotes included, that makes an attribute value an integer. */
  const IntTag: string := "\"Int\""

  /** The figure type: the text after the last dot of the first token. */
  function TypeName(token: string): string
  {
    LastPiece(token, '.')
  }

  /** The attribute count of token 3, read as a decimal natural number. */
  function AttrCount(token: string): Option<nat>
  {
    if |token| > 0 && SkipDigits(token, 0, 10) == |token| then Some(DigitsValue(token, 0, |token|, 10)) else None
  }

  /** Name of the i-th attribute (1-based), its double quotes removed. */
  function AttrName(row: seq<string>, i: nat): string
    requires 3 * i + 1 < |row|
  {
    Unquote(row[3 * i + 1])
  }

  /** Value of the i-th attribute: an integer under the `"Int"` tag, else the raw token. */
  function AttrValue(row: seq<string>, i: nat): Value
    requires 3 * i + 3 < |row|
  {
    if row[3 * i + 2] == IntTag then Num(ParseInt(row[3 * i + 3])) else Str(row[3 * i + 3])
  }

  /** The attribute map after the first k triples have been stored, in order. */
  function Attributes(row: seq<string>, k: nat): map<string, Value>
    requires 3 * k + 4 <= |row|
  {
    if k == 0 then map[] else Attributes(row, k - 1)[AttrName(row, k) := AttrValue(row, k)]
  }

  /** The geometry tail that follows n attribute triples. */
  function Tail(row: seq<string>, n: nat): Geometry
    requires 3 * n + 8 <= |row|
  {
    Geometry(ParseInt(row[3 * n + 4]), ParseInt(row[3 * n + 5]),
             ParseInt(row[3 * n + 6]), ParseInt(row[3 * n + 7]))
  }

  /** The outcome of `parseRnwRow` on the raw tokens of one row. */
  function ParseRow(rawRow: seq<string>): Result<Figure, RowError>
  {
    var row := NonEmpty(rawRow);
    if |row| == 0 then Err(BlankRow)
    else
      var kind := TypeName(row[0]);
      if !IsFigureKind(kind) then Ok(Figure(kind, map[], None))
      else if |row| < 4 then Err(TooFewTokens(4))
      else match AttrCount(row[3])
        case None => Err(MalformedCount)
        case Some(n) =>
          if |row| < 3 * n + 8 then Err(TooFewTokens(3 * n + 8))
          else Ok(Figure(kind, Attributes(row, n), Some(Tail(row, n))))
  }

  /** The attribute loop of `parseRnwRow`: triples 1 .. n stored in order. */
  method StoreAttributes(row: seq<string>, n: nat) returns (attrs: map<string, Value>)
    requires 3 * n + 4 <= |row|
    ensures attrs == Attributes(row, n)
  {
    attrs := map[];
    var i := 1;
    while i <= n
      invariant 1 <= i <= n + 1
      invariant attrs == Attributes(row, i - 1)
    {
      var name := Unquote(row[3 * i + 1]);
      if row[3 * i + 2] == IntTag {
        attrs := attrs[name := Num(ParseInt(row[3 * i + 3]))];
      } else {
        attrs := attrs[name := Str(row[3 * i + 3])];
      }
      i := i + 1;
    }
  }

  /**
   * `parseRnwRow`: drops empty tokens, reads the type, and for a figure row
   * stores the attribute triples one by one before the geometry tail.
   */
  method ParseRnwRow(rawRow: seq<string>) returns (r: Result<Figure, RowError>)
    ensures r == ParseRow(rawRow)
  {
    var row := NonEmpty(rawRow);
    if |row| == 0 {
      return Err(BlankRow);
    }
    var kind := TypeName(row[0]);
    if !IsFigureKind(kind) {
      return Ok(Figure(kind, map[], None));
    }
    if |row| < 4 {
      return Err(TooFewTokens(4));
    }
    var count := AttrCount(row[3]);
    if count.None? {
      return Err(MalformedCount);
    }
    var n := count.value;
    if |row| < 3 * n + 8 {
      return Err(TooFewTokens(3 * n + 8));
    }
    var attrs := StoreAttributes(row, n);
    var geometry := Tail(row, n);
    return Ok(Figure(kind, attrs, Some(geometry)));
  }

  /** A row parses exactly when it has a token and, if it is a figure row, a
      decimal count N and at least 3N+8 tokens; the error names what is missing. */
  lemma ParseRowOutcome(rawRow: seq<string>)
    ensures var row := NonEmpty(rawRow);
      ParseRow(rawRow).Ok? <==>
        |row| > 0 &&
        (IsFigureKind(TypeName(row[0])) ==>
           |row| >= 4 && AttrCount(row[3]).Some? && |row| >= 3 * AttrCount(row[3]).value + 8)
    ensures ParseRow(rawRow) == Err(BlankRow) <==> |NonEmpty(rawRow)| == 0
    ensures ParseRow(rawRow).Ok? ==> ParseRow(rawRow).value.kind == TypeName(NonEmpty(rawRow)[0])
  {
  }

  /** The attribute names present are exactly the names of the first k triples. */
  lemma {:induction false} AttributesKeys(row: seq<string>, k: nat)
    requires 3 * k + 4 <= |row|
    ensures forall key :: key in Attributes(row, k) <==> exists i :: 1 <= i <= k && AttrName(row, i) == key
  {
    if k > 0 {
      AttributesKeys(row, k - 1);
    }
  }

  /** A name takes the value of the last triple that carries it. */
  lemma {:induction false} AttributesLastWins(row: seq<string>, k: nat, i: nat)
    requires 3 * k + 4 <= |row|
    requires 1 <= i <= k
    requires forall j :: i < j <= k ==> AttrName(row, j) != AttrName(row, i)
    ensures AttrName(row, i) in Attributes(row, k)
    ensures Attributes(row, k)[AttrName(row, i)] == AttrValue(row, i)
  {
    if i < k {
      AttributesLastWins(row, k - 1, i);
    }
  }

  /** k triples consume exactly tokens 4 .. 3k+3: nothing else is read. */
  lemma {:induction false} AttributesFrame(row: seq<string>, other: seq<string>, k: nat)
    requires 3 * k + 4 <= |row| && 3 * k + 4 <= |other|
    requires row[4..3 * k + 4] == other[4..3 * k + 4]
    ensures Attributes(row, k) == Attributes(other, k)
  {
    if k > 0 {
      assert row[4..3 * k + 1] == row[4..3 * k + 4][..3 * k - 3];
      assert other[4..3 * k + 1] == other[4..3 * k + 4][..3 * k - 3];
      AttributesFrame(row, other, k - 1);
      assert row[3 * k + 1] == row[4..3 * k + 4][3 * k - 3];
      assert row[3 * k + 2] == row[4..3 * k + 4][3 * k - 2];
      assert row[3 * k + 3] == row[4..3 * k + 4][3 * k - 1];
    }
  }

  /** A figure row with a decimal count N and at least 3N+8 tokens parses to
      its type, its first N triples and the four tokens after them. */
  lemma FigureRowParses(rawRow: seq<string>, n: nat)
    requires var row := NonEmpty(rawRow);
      3 * n + 8 <= |row| && IsFigureKind(TypeName(row[0])) && AttrCount(row[3]) == Some(n)
    ensures var row := NonEmpty(rawRow);
      ParseRow(rawRow) == Ok(Figure(TypeName(row[0]), Attributes(row, n), Some(Tail(row, n))))
  {
  }

  /** In a figure record x, y, width and height are the geometry tail even when
      an attribute has the same name, and every other attribute name holds the
      value of its last triple. */
  lemma FigureGet(row: seq<string>, n: nat, kind: string, key: string, i: nat)
    requires 3 * n + 8 <= |row|
    ensures var f := Figure(kind, Attributes(row, n), Some(Tail(row, n)));
      f.Get("x") == Some(Num(ParseInt(row[3 * n + 4])))
      && f.Get("y") == Some(Num(ParseInt(row[3 * n + 5])))
      && f.Get("width") == Some(Num(ParseInt(row[3 * n + 6])))
      && f.Get("height") == Some(Num(ParseInt(row[3 * n + 7])))
      && (1 <= i <= n && key == AttrName(row, i) && key !in {"x", "y", "width", "height"}
          && (forall j :: i < j <= n ==> AttrName(row, j) != key)
          ==> f.Get(key) == Some(AttrValue(row, i)))
  {
    if 1 <= i <= n && (forall j :: i < j <= n ==> AttrName(row, j) != AttrName(row, i)) {
      AttributesLastWins(row, n, i);
    }
  }

  /** The two lemmas above, read on the outcome of a figure row. */
  lemma FigureRowProperties(rawRow: seq<string>, n: nat, key: string, i: nat)
    requires var row := NonEmpty(rawRow);
      3 * n + 8 <= |row| && IsFigureKind(TypeName(row[0])) && AttrCount(row[3]) == Some(n)
    ensures ParseRow(rawRow).Ok?
    ensures var row := NonEmpty(rawRow);
      var f := ParseRow(rawRow).value;
      f.kind == TypeName(row[0])
      && f.Get("x") == Some(Num(ParseInt(row[3 * n + 4])))
      && f.Get("y") == Some(Num(ParseInt(row[3 * n + 5])))
      && f.Get("width") == Some(Num(ParseInt(row[3 * n + 6])))
      && f.Get("height") == Some(Num(ParseInt(row[3 * n + 7])))
      && (1 <= i <= n && key == AttrName(row, i) && key !in {"x", "y", "width", "height"}
          && (forall j :: i < j <= n ==> AttrName(row, j) != key)
          ==> f.Get(key) == Some(AttrValue(row, i)))
  {
    var row := NonEmpty(rawRow);
    FigureRowParses(rawRow, n);
    FigureGet(row, n, TypeName(row[0]), key, i);
  }

  /** A row of any other type yields a record whose only property is its type. */
  lemma OtherRowHoldsOnlyType(rawRow: seq<string>, key: string)
    requires ParseRow(rawRow).Ok?
    requires !IsFigureKind(ParseRow(rawRow).value.kind)
    ensures ParseRow(rawRow).value.Get(key) ==
      if key == "type" then Some(Str(TypeName(NonEmpty(rawRow)[0]))) else None
  {
  }

  /** The type is the part of token 0 after its last dot, and holds no dot. */
  lemma TypeIsLastSegment(token: string)
    ensures var t := TypeName(token);
      '.' !in t && |t| <= |token| && token[|token| - |t|..] == t
      && (|t| < |token| ==> token[|token| - |t| - 1] == '.')
  {
    LastPieceIsSuffix(token, '.');
  }
}
