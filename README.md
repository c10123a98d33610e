# RnwParser in Dafny

This project models the parser for the editor's textual `.rnw` diagram format
(`lib/core/RnwParser.js`). It has two parts:

- `parseRnw` takes the whole text of a file.
  - It splits the text on `\n` and accepts only format version 11 in the first row.
  - Every later row is ranked by its indentation, split into tokens and read by
    `parseRnwRow`.
  - Each row is then sorted by its `type`:
    - a `CPNDrawing` row opens a new drawing, whose `size` is the number in the
      row's last token;
    - a `PlaceFigure`, `TransitionFigure` or `ArcConnection` row is appended to
      the figures of the drawing opened last;
    - any other row is dropped.
- `parseRnwRow` turns the tokens of one row into a figure record.
  - Its `type` is the text after the last dot of token 0.
  - For the three figure kinds, token 3 is an attribute count N.
  - The N `(name, type tag, value)` triples that follow are decoded; a `"Int"` tag
    makes the value an integer.
  - Tokens 3N+4 .. 3N+7 are read as `x`, `y`, `width` and `height`.

The project has four modules:

- `Wrappers` (`wrappers.dfy`): `Option` and `Result`.
- `JsText` (`js_text.dfy`): the JavaScript built-ins the parser relies on.
  - `\s` and `trim`.
  - `split` on one character, with its inverse `Join`.
  - The empty-token filter.
  - `replace(/"/g, '')`.
  - The global `parseInt`.
- `RnwRow` (`rnw_row.dfy`): `parseRnwRow`.
  - A specification function, `ParseRow`.
  - The imperative method `ParseRnwRow`, whose attribute loop is `StoreAttributes`.
- `RnwParser` (`rnw_parser.dfy`): `parseRnw`.
  - The imperative methods `ParseRnw`, `AssembleRows` (the row loop), `ReadRnwRow`
    (rank, tokens and `parseRnwRow` for one row) and `Dispatch` (the type switch).
  - A declarative description of the result, stated over the sequence of rows as
    read:
    - `Openers`: the positions of the drawing rows.
    - `Members`: the figure rows between two positions.
    - `DrawingFor`: the drawing each drawing row builds.
    - `Fault` and `Sound`: the error a row raises, if any.
    - `Assembled` and `Stopped`: what a finished or an abandoned run has produced.

JavaScript objects are modelled by what a lookup returns:

- `Figure.Get` and `Record.Get` resolve a property name the way the object built
  by successive writes does.
- `type` is written first, then the attributes, then `x`, `y`, `width` and
  `height`, and `rank` last.
- So an attribute named `type` changes how `parseRnw` sorts the row, and an
  attribute named `x` is hidden by the geometry.

Exceptions become `Err` values of `RnwParser.Error`:

| Error | Cause in the code |
|---|---|
| `UnsupportedVersion` | `'version not supported'` |
| `NoIndentation` | the `^(\s+)` match is null |
| `BadRow` | a row with no token at all: `rawRow[0].split` throws a TypeError (line 46). The model also uses `BadRow` for figure rows it refuses; see "Left out" |
| `FigureBeforeDrawing` | a figure row is pushed when no drawing is open |

Several behaviours of the code as written are kept as they are:

- The result is always a list, even when it holds a single drawing.
- The rank is the indentation length divided by 4 and need not be a whole number:
  6 leading spaces give rank 1.5.
- Tokens are split on single spaces with no regard for double quotes. Quotes are
  removed from attribute names only.
- The type keeps its full last segment (`PlaceFigure`, not `Place`). Only the
  three kinds above are decoded; every other row holds only its `type` and `rank`.
- A text that ends with a newline has an empty last row. That row has no
  indentation, so such a text is refused (`RnwParser.TrailingNewlineFails`).

## Model

| member | source | states |
|---|---|---|
| JsText.LeadingWhitespace | lib/core/RnwParser.js:21 | the length of the maximal whitespace prefix: every character before it is `\s`, and the next one is not |
| JsText.Trim | lib/core/RnwParser.js:22 | the result is a contiguous slice of the input that starts after the leading whitespace, is followed only by whitespace, and starts and ends with non-whitespace |
| JsText.Split | lib/core/RnwParser.js:14 | at least one piece, and no piece contains the separator |
| JsText.JoinSplit | lib/core/RnwParser.js:14 | joining the pieces with the separator gives the text back |
| JsText.SplitJoin | lib/core/RnwParser.js:14 | splitting the join of separator-free pieces gives the pieces back |
| JsText.LastPieceIsSuffix | lib/core/RnwParser.js:46 | the last piece is a separator-free suffix, preceded by a separator unless it is the whole text |
| JsText.NonEmpty | lib/core/RnwParser.js:43 | the filter keeps no empty token, never grows the list, and leaves a list without empty tokens unchanged |
| JsText.NonEmptyAppend | lib/core/RnwParser.js:43 | filtering distributes over concatenation, so tokens keep their order |
| JsText.NonEmptyWithout | lib/core/RnwParser.js:43 | a character absent from every token is absent from every kept token |
| JsText.NonEmptyKeepsLast | lib/core/RnwParser.js:43 | a non-empty last token is the last token kept |
| JsText.Unquote | lib/core/RnwParser.js:53 | the result has no double quote, is no longer than the input, and equals an input that has none |
| JsText.UnquoteKeeps | lib/core/RnwParser.js:53 | every character other than `"` is kept exactly as often as it occurs |
| JsText.UnquoteAppend | lib/core/RnwParser.js:53 | quote removal distributes over concatenation, so the kept characters stay in order; with UnquoteCons this determines the result |
| JsText.QuotedName | lib/core/RnwParser.js:53 | a quoted name `"w"` with no quote inside becomes the attribute name `w` |
| JsText.ParseIntDecimal | lib/core/RnwParser.js:56 | `parseInt` reads back every integer written in decimal, sign included |
| RnwRow.StoreAttributes | lib/core/RnwParser.js:52-61 | the loop stores triples 1 .. N in order, giving the attribute map `Attributes(row, N)` |
| RnwRow.ParseRnwRow | lib/core/RnwParser.js:42-70 | the method computes exactly the outcome `ParseRow` describes |
| RnwRow.ParseRowOutcome | lib/core/RnwParser.js:42-70 | a row parses if and only if it has a token and, for a figure kind, a decimal count N and at least 3N+8 tokens; `BlankRow` if and only if no token survives the filter; the kind is the type of token 0 |
| RnwRow.AttributesKeys | lib/core/RnwParser.js:52-61 | the attribute names present are exactly the unquoted names of triples 1 .. k |
| RnwRow.AttributesLastWins | lib/core/RnwParser.js:52-61 | a name holds the value of the last triple that carries it, `parseInt` of the value under `"Int"`, the raw token otherwise |
| RnwRow.AttributesFrame | lib/core/RnwParser.js:52-61 | k triples read only tokens 4 .. 3k+3: rows that agree there give the same attributes |
| RnwRow.FigureRowParses | lib/core/RnwParser.js:48-66 | a figure row with count N and at least 3N+8 tokens parses to its type, its first N triples and the four tokens after them |
| RnwRow.FigureGet | lib/core/RnwParser.js:52-65 | `x`, `y`, `width`, `height` are `parseInt` of tokens 3N+4 .. 3N+7 even when an attribute has that name; any other name holds its last triple's value |
| RnwRow.FigureRowProperties | lib/core/RnwParser.js:48-66 | the two lemmas above, read on the outcome of `parseRnwRow` for a figure row |
| RnwRow.OtherRowHoldsOnlyType | lib/core/RnwParser.js:48-69 | a row of any other type yields a record whose only property is `type` |
| RnwRow.TypeIsLastSegment | lib/core/RnwParser.js:46 | the type is a dot-free suffix of token 0, preceded by a dot unless it is the whole token |
| RnwParser.ReadRowsAt | lib/core/RnwParser.js:20-24 | position i - 1 of the rows as read holds row i as read, with row number i |
| RnwParser.ReadRowOutcome | lib/core/RnwParser.js:21-24 | a row fails with `NoIndentation` if and only if it has no leading whitespace; otherwise it reads exactly when `parseRnwRow` does, with a positive rank equal to a quarter of the indentation, which the record's `rank` property returns; an error names the row |
| RnwParser.RowTokens | lib/core/RnwParser.js:22 | every token `parseRnwRow` sees is non-empty and holds no space |
| RnwParser.SizeIsLastToken | lib/core/RnwParser.js:28 | the size, read from the unfiltered last token, is the number in the last token `parseRnwRow` sees |
| RnwParser.Openers | lib/core/RnwParser.js:27-30 | the positions of the drawing rows before k, strictly increasing, none missing |
| RnwParser.FaultIsFinal | lib/core/RnwParser.js:20-37 | one row that raises an error makes the whole file fail |
| RnwParser.StopAt | lib/core/RnwParser.js:20-37 | an error at the first faulty row is the error the parse stops with |
| RnwParser.TrailingNewlineFails | lib/core/RnwParser.js:14-21 | a text ending in a newline has an empty last row that fails with `NoIndentation`, so the text never parses |
| RnwParser.DrawingForEarlier | lib/core/RnwParser.js:32-35 | one more row leaves every drawing but the last unchanged |
| RnwParser.DrawingForLast | lib/core/RnwParser.js:32-35 | one more row appends its record to the last drawing's figures if it is a figure row, and otherwise leaves that drawing unchanged |
| RnwParser.DrawingForNew | lib/core/RnwParser.js:27-30 | a drawing row adds one drawing: its own record and size, with no figures |
| RnwParser.AssembleOpens | lib/core/RnwParser.js:27-30 | pushing a new empty drawing keeps the drawings equal to their description, and all figures equal to the figure rows so far |
| RnwParser.AssembleJoins | lib/core/RnwParser.js:32-35 | appending a figure to the last drawing only keeps that invariant |
| RnwParser.AssembleDropped | lib/core/RnwParser.js:26-36 | a row of another type changes nothing and keeps that invariant |
| RnwParser.ReadRnwRow | lib/core/RnwParser.js:21-24 | the method computes row i as read: rank, tokens, `parseRnwRow` and the size token; an error it returns names row i |
| RnwParser.Dispatch | lib/core/RnwParser.js:26-36 | the type switch succeeds if and only if the row raises nothing; it then extends the drawings by that row, and otherwise fails because no drawing is open |
| RnwParser.AssembleRows | lib/core/RnwParser.js:18-39 | the loop succeeds if and only if no row raises an error, and then returns one drawing per drawing row, in order, each holding the figure rows up to the next drawing row; otherwise it returns the first row's error |
| RnwParser.ParseRnw | lib/core/RnwParser.js:13-40 | `UnsupportedVersion` if and only if the trimmed first row does not read as 11; otherwise the result of the row loop over the rest |

## Left out

- `readRnw` (lib/core/RnwParser.js:5-11) reads a file through `fs.readFile` and a Promise. The model takes the decoded text as input.
- The `module.exports` singleton (lib/core/RnwParser.js:73) is module wiring and has no behaviour.
- RnwRow.ParseRnwRow: the model refuses every figure row with fewer than 3N+8 tokens, with `TooFewTokens`. The code behaves in three ways:
  - with fewer than 4 tokens, the count is `undefined`, so the loop does not run; `x`, `y`, `width` and `height` become NaN and nothing is thrown;
  - when the name token of a triple is missing (at most 3N+1 tokens), `.replace` is called on `undefined` and throws a TypeError (line 53);
  - when only a tag, a value or a geometry token is missing, the code stores `undefined` (line 59) or NaN (lines 56 and 62-65) and nothing is thrown.
- RnwRow.ParseRnwRow: the model accepts only a count token made of decimal digits and otherwise returns `MalformedCount`. The code reads the token, which is present, and coerces it to a number in the loop bound (line 52) and the geometry offsets (lines 62-65), without throwing. So `"0x2"` and `"2.0"` count as 2, `"abc"` gives no attributes and NaN geometry, and `"-1"` reads the geometry from tokens 1 to 4.
- JavaScript numbers are modelled as exact reals or NaN. The model does not capture:
  - loss of precision above 2^53;
  - the difference between `-0` and `0`;
  - `Infinity`.
- Property names are a map from strings. Special object keys such as `__proto__` are not modelled.
- A drawing is modelled as its row's record plus separate `size` and `figures` fields. In the code the `size` and `figures` properties are written onto that same object.
- Pushing onto `drawings` and onto the last drawing's `figures` is modelled by building new sequences. No object is shared between drawings, so no aliasing is lost.
- The thrown values (a string, or a `TypeError`) are replaced by the `Error` cases above.
- A Dafny `char` is a Unicode scalar value, where a JavaScript string is a sequence of UTF-16 code units. So a character outside the Basic Multilingual Plane has length 1 here and 2 in JavaScript. No length the parser uses depends on this: every whitespace character is in the Basic Multilingual Plane, so the indentation count is the same, and the filter only tests whether a token is empty. `\s` is the ECMAScript whitespace set and is used for both the indentation match and `trim`.
