# PC records and the PCPROG report

A Dafny model of the two classes that hold the logic of this repository:

- `PC` (PC.java): a personal-computer record with four fields: `model`,
  `year`, `manufacturer` and the component set `comps`.
  - Each field has a validator.
  - The constructor checks the fields in the order model, year,
    manufacturer, comps. It throws on the first invalid one and assigns nothing.
  - `setModel` and `setComps` validate first. They return `false` and change
    nothing on invalid input.
  - `year` and `manufacturer` have no setter.
  - `equals` compares all four fields.
  - `toString` renders `PC:<model,year,manufacturer,comps>`.
- `PCReport.displayReport` (PCReport.java) builds a fixed-width text report
  in a `StringBuffer`:
  - a 103-dash banner;
  - a title line of 47 spaces and `PCPROG REPORT`;
  - a second banner;
  - one row per PC, in array order, with five right-justified cells of widths
    3, 20, 6, 20 and 50 separated by single spaces;
  - a closing banner with no trailing newline.

The model has three modules:

- `Format` (format.dfy) holds the text building blocks the report relies on:
  - repeated characters;
  - `%Ns` / `%Nd` padding (`PadLeft`: spaces on the left, never truncated);
  - Java's decimal rendering of an `int` (`IntText`), with a parser that
    reads it back;
  - the joining of appended pieces (`Concat`).
- `PcEntity` (pc.dfy) is the `PC` class.
  - Its `Valid()` invariant says all four fields pass their validators.
  - Java `null` is `Option.None`, and a Java `int` is `int32`.
  - The throwing constructor is the method `NewPC`. It returns either
    `Created(pc)` or `Rejected(field)`, naming the first invalid field.
  - The Dafny `constructor` does the assignments once every check has passed.
- `PcReport` (pc_report.dfy) holds the report.
  - `Report(vs, compsText)` is the specification of the whole text, as a
    function of the PCs' field values.
  - `DisplayReport` is the method with the source's loops. It appends
    characters and rows to a growing string and is proved equal to `Report`.

Two texts for a component set come from code that is not part of this
model:

- `comps.toString()`, used by `PC.toString`;
- `getComps().getElements().toString()`, used by the report.

These are different Java calls and may give different text. Each is a
function parameter supplied by the caller: `compsText` of `PC.ToText` for
the first, and `compsText` of `Report` and `DisplayReport` for the second.

## Model

| member | source | states |
|---|---|---|
| PcEntity.ValidModel | PC.java:202-204 | `validateModel`: the model is non-null, has at most 20 characters and is not empty (bounds in `ModelBounds`) |
| PcEntity.ValidYear | PC.java:106-108 | `validateYear`: the year is at least 1940 (bounds in `YearBounds`) |
| PcEntity.ValidManufacturer | PC.java:90-92 | `validateManufacturer`: the manufacturer is non-null, not empty and has at most 20 characters (bounds in `ManufacturerBounds`) |
| PcEntity.ValidComps | PC.java:154-156 | `validateComps`: the set is non-null; an empty set is accepted |
| PcEntity.ModelBounds | PC.java:202-204 | a model is accepted exactly when it is non-null and has 1 to 20 characters: 1 and 20 characters are accepted, 0 and 21 rejected, null rejected |
| PcEntity.ManufacturerBounds | PC.java:90-92 | a manufacturer is accepted exactly when it is non-null and has 1 to 20 characters: 1 and 20 characters are accepted, 0 and 21 rejected, null rejected |
| PcEntity.YearBounds | PC.java:106-108 | a year is accepted exactly when it is at least 1940: 1940 is accepted, 1939 is rejected |
| PcEntity.FirstInvalid | PC.java:63-70 | no field is reported exactly when all four validators accept; a reported field fails its validator, and every field checked before it passes |
| PcEntity.ConstructionSucceedsIff | PC.java:63-74 | the constructor's checks all pass exactly when model, year, manufacturer and comps are each valid |
| PcEntity.NewPC | PC.java:59-75 | construction is rejected exactly when some field is invalid, naming the first invalid one; on success the new PC is fresh, satisfies the invariant and holds exactly the arguments |
| PcEntity.PC.constructor | PC.java:71-74 | with every argument valid, the new object holds exactly the arguments and satisfies the invariant |
| PcEntity.PC.GetModel | PC.java:165-167 | under the invariant the model returned has 1 to 20 characters |
| PcEntity.PC.GetYear | PC.java:212-214 | under the invariant the year returned is at least 1940 |
| PcEntity.PC.GetManufacturer | PC.java:222-224 | under the invariant the manufacturer returned has 1 to 20 characters |
| PcEntity.PC.SetModel | PC.java:183-188 | returns whether the new model is valid; on true only `model` changes, to the argument; on false nothing changes; the invariant is kept |
| PcEntity.PC.SetComps | PC.java:134-140 | returns whether the new set is non-null; on true only `comps` changes, to the argument; on false nothing changes; the invariant is kept |
| PcEntity.PC.Equals | PC.java:254-262 | true exactly when the other object is a PC with the same year, model, manufacturer and component set |
| PcEntity.EqualsReflexive | PC.java:254-255 | every PC equals itself |
| PcEntity.EqualsSymmetric | PC.java:254-262 | `a.equals(b)` and `b.equals(a)` agree |
| PcEntity.EqualsTransitive | PC.java:254-262 | equality carries over through a third PC |
| PcEntity.EqualsDetectsEachField | PC.java:258-261 | two PCs that differ in any one of the four fields are not equal |
| PcEntity.PC.ToText | PC.java:235-242 | the text is eight characters longer than the model, year digits, manufacturer and component text together |
| PcEntity.ToTextLayout | PC.java:235-242 | the text is `PC:<`, the model, a comma, the year's digits, a comma, the manufacturer, a comma, the component text and `>`, each at its exact position |
| Format.PadLeft | PCReport.java:41-45 | a `%Ns` cell is exactly as wide as the larger of N and its text: padding never truncates (contents in `PadLeftKeepsText` and `PadLeftFillsSpaces`) |
| Format.IntText | PCReport.java:41-43 | the decimal text of an `int` as `Integer.toString` gives it, at least one character long; it reads back to the same `int` (`IntTextRoundTrip`) |
| Format.PadLeftKeepsText | PCReport.java:41-45 | a padded cell ends with the whole of its text, which is never truncated |
| Format.PadLeftFillsSpaces | PCReport.java:41-45 | everything before the text in a padded cell is a space |
| Format.PadLeftNoTruncation | PCReport.java:41-45 | a text at least as wide as its cell is left as it is |
| Format.PadLeftIdempotent | PCReport.java:41-45 | padding an already padded cell changes nothing |
| Format.DecimalTextDigits | PCReport.java:41-43 | the decimal rendering of a natural number is all digits, with no leading zero except for zero itself |
| Format.ParseDecimalText | PCReport.java:41-43 | reading back the decimal digits of a natural number gives that number |
| Format.IntTextRoundTrip | PCReport.java:41-43 | reading back the rendering of any `int`, with its minus sign, gives that `int` |
| Format.DecimalTextLength | PCReport.java:34-36 | a number below 10^k has at most k digits |
| Format.ConcatPrefix | PCReport.java:39-46 | appending more pieces never alters the text already built |
| Format.ConcatAt | PCReport.java:39-46 | each appended piece sits in the result right after the pieces appended before it |
| Format.ConcatUniform | PCReport.java:39-46 | pieces all of width w join to a text of width w times their number |
| PcReport.AppendRepeated | PCReport.java:25-26 | the loop appends exactly n copies of the character and keeps what was there |
| PcReport.DisplayReport | PCReport.java:23-51 | the text built by the loops is exactly the report specification for the PCs' fields in array order |
| PcReport.Row | PCReport.java:41-45 | one row: the 1-based index, model, year, manufacturer and component text, right-justified in cells of widths 3, 20, 6, 20 and 50, one space between cells, and a newline (positions in `RowLayout`) |
| PcReport.Report | PCReport.java:23-51 | the whole report: header, one row per PC in order, closing banner (properties in `ReportOpening`, `ReportRow`, `ReportClosing`, `ReportLength`) |
| PcReport.HeaderSize | PCReport.java:25-33 | the three opening lines are 269 characters long |
| PcReport.ReportOpening | PCReport.java:25-33 | the report opens with 103 dashes and a newline, then 47 spaces, `PCPROG REPORT` and a newline, then 103 dashes and a newline |
| PcReport.ReportClosing | PCReport.java:48-50 | the report ends with 103 dashes and no trailing newline |
| PcReport.ReportLength | PCReport.java:23-51 | the report is the 372 characters of its frame plus the rows |
| PcReport.EmptyReport | PCReport.java:25-33 | with no PCs the report is the header and the closing banner alone, 372 characters |
| PcReport.ReportRow | PCReport.java:39-46 | there is one row per PC; row k carries index k + 1 and the fields of PC k, and sits right after the header and the rows before it |
| PcReport.TextCellWidths | PCReport.java:42-44 | for a PC satisfying its invariant, the model and manufacturer cells are exactly 20 characters |
| PcReport.NumberCellWidths | PCReport.java:41-43 | with an index below 1000 and a valid year below 1,000,000, the index and year cells are exactly 3 and 6 characters |
| PcReport.CellColumns | PCReport.java:41-45 | once the first four cells have widths 3, 20, 6 and 20, each cell and each separating space sits at a fixed column |
| PcReport.RowLayout | PCReport.java:34-45 | a row of a valid PC has its cells at columns 0-2, 4-23, 25-30, 32-51 and from 53, single spaces between them, and a final newline |
| PcReport.RowModelAligned | PCReport.java:42 | in such a row the model ends exactly at column 23, the last of its cell |
| PcReport.RowManufacturerAligned | PCReport.java:44 | in such a row the manufacturer ends exactly at column 51, the last of its cell |
| PcReport.UniformRows | PCReport.java:39-46 | when every component text fits its cell, every row is 104 characters, row k starts at 269 + 104k, and the report is 372 + 104n characters |

## Left out

- `PCFactory`: a lazily created singleton whose `createPC` only calls the
  `PC` constructor. It adds no behaviour beyond the constructor modelled here.
- The annotations `@DomainConstraint`, `@DOpt` and `@AttrRef`: metadata with
  no run-time behaviour.
- The text of the `NotPossibleException` messages. A rejection is
  `Rejected(field)`, naming the first invalid field.
- `repOK`: it only tests its argument for null and does not check the
  class's stated properties.
- The `Set` type and the rendering of a component set. Both are outside
  this model. The renderings are the `compsText` parameters, and
  `Set.equals` is taken to be equality of the sets' elements.
- `SetComps` and `GetComps`: Java stores and returns the caller's `Set`
  object by reference (PC.java:74, 118, 138). A caller holding that object
  can change a PC's components without `setComps`. The model keeps `comps`
  as a value, so it does not capture that aliasing.
- `compsText`: here the rendering depends only on which elements the set
  holds. In Java, `getElements().toString()` may also depend on the order
  the elements were added. Two PCs that are `equals` could then render
  differently, which the model cannot show.
- `PC.getComps`: a plain field read. It is modelled as `GetComps` but has
  no property of its own to state.
- `StringBuffer` and `String.format` as library objects. Only their effect is
  modelled: appending, and right-justifying with spaces.
- Java `String` lengths count UTF-16 code units. The model counts elements
  of a Dafny `string`.
- `DisplayReport`: a null array, or a null entry in it, would throw a
  `NullPointerException`. The model's array and entries are non-null.
- `DisplayReport`: the PCs it reads need not satisfy their invariant,
  because the loop reads the fields directly. The layout lemmas
  (`TextCellWidths`, `NumberCellWidths`, `RowLayout`, `RowModelAligned`,
  `RowManufacturerAligned`, `UniformRows`) assume the invariant.
- `Row` and `DisplayReport`: `String.format("%3d")` and `String.format("%6d")`
  use the default locale, which may substitute its own digits (Persian
  digits, for instance). The model writes the ASCII digits 0-9, as
  `Integer.toString` does.
- `RowLayout` and `UniformRows`: they assume an index below 1000 and a year
  below 1,000,000. A wider index or year widens its cell, as `%3d` and `%6d`
  do, so the later columns shift. `Report` covers that case too.
- The method comment on `displayReport` says the model and manufacturer
  columns are as wide as those attributes. The code formats both with
  `%20s`, and the model follows the code. The two agree because both
  fields have at most 20 characters.
