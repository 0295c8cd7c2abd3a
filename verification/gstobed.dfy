/**
 * guideseq/gsToBed.py: convert an identified-cleavage-site table into a
 * four-column BED file (chromosome, start, end, name) for the interval tools.
 *
 * The input file is the sequence of its lines as Python iterates them (each
 * with its terminator); the output file is the sequence of lines written.
 * The first line is a header and is skipped; every other line is split on
 * tabs, and only rows whose read support (field 12) is above zero are written.
 */
module GsToBed {
  import opened Wrappers
  import opened PyStr

  /** Field indexes of the identified table read by the converter. */
  const LocationField: nat := 0
  const NameField: nat := 3
  const SupportField: nat := 12

  /** The exceptions the conversion can raise. */
  datatype BedError =
    | MissingField(fieldCount: nat)     // `line[12]` on a row with fewer than 13 fields
    | NotANumber(text: string)          // `float(line[12])` on text that is not a number
    | ShortLocation(location: string)   // `coordinates[1]` or `[2]` on a location with too few pieces

  /**
   * What the output file holds after a run: the lines written, in order, and
   * the error that stopped the run, if one did. Lines written before an error
   * stay in the file, since leaving the `with` block closes it.
   */
  datatype Conversion = Conversion(written: seq<string>, error: Option<BedError>)

  function Fields(line: string): seq<string>
  {
    Split(line, '\t')
  }

  /** `location.replace(':', '-').split('-')` */
  function Coordinates(location: string): seq<string>
  {
    Split(Replace(location, ':', '-'), '-')
  }

  /** The BED line for one site: four tab-separated columns and a newline. */
  function BedLine(chrom: string, start: string, end: string, name: string): string
  {
    Join([chrom, start, end, name], '\t') + "\n"
  }

  /** A row is kept when its read support parses to a number above zero. */
  predicate Retained(line: string)
  {
    var fields := Fields(line);
    |fields| > SupportField && ParseNumber(fields[SupportField]).Some?
    && Positive(ParseNumber(fields[SupportField]).value)
  }

  /** The rows of a table body that pass the read-support filter, in table order. */
  function RetainedRows(rows: seq<string>): (kept: seq<string>)
    ensures |kept| <= |rows|
  {
    if rows == [] then []
    else (if Retained(rows[0]) then [rows[0]] else []) + RetainedRows(rows[1..])
  }

  /** The line a retained row with a well-formed location is written as. */
  function RowLine(line: string): string
  {
    var fields := Fields(line);
    var coords := if |fields| > LocationField then Coordinates(fields[LocationField]) else [];
    if |fields| > NameField && |coords| >= 3 then BedLine(coords[0], coords[1], coords[2], fields[NameField])
    else []
  }

  /** One iteration of the loop: nothing, one line, or the error it raises. */
  function ConvertRow(line: string): Result<Option<string>, BedError>
  {
    var fields := Fields(line);
    if |fields| <= SupportField then Failure(MissingField(|fields|))
    else match ParseNumber(fields[SupportField])
      case None => Failure(NotANumber(fields[SupportField]))
      case Some(support) =>
        if !Positive(support) then Success(None)
        else
          var coords := Coordinates(fields[LocationField]);
          if |coords| < 3 then Failure(ShortLocation(fields[LocationField]))
          else Success(Some(BedLine(coords[0], coords[1], coords[2], fields[NameField])))
  }

  /** A row that raises nothing writes a line exactly when it is retained, and that line is its `RowLine`. */
  lemma ConvertRowWritesRetained(line: string)
    requires ConvertRow(line).Success?
    ensures ConvertRow(line).value.Some? <==> Retained(line)
    ensures ConvertRow(line).value.Some? ==> ConvertRow(line).value.value == RowLine(line)
  {
  }

  /** A row is retained exactly when it is a row of the table that passes the filter. */
  lemma {:induction false} RetainedRowsMembers(rows: seq<string>, r: string)
    ensures r in RetainedRows(rows) <==> r in rows && Retained(r)
  {
    if rows != [] {
      RetainedRowsMembers(rows[1..], r);
      assert rows == [rows[0]] + rows[1..];
    }
  }

  /** What one row contributes to the output: nothing, one line, or an error. */
  type RowOutcome = Result<Option<string>, BedError>

  /** The outcome of every row under `convert`, in table order. */
  function Outcomes(rows: seq<string>, convert: string -> RowOutcome): (outcomes: seq<RowOutcome>)
    ensures |outcomes| == |rows|
    ensures forall i :: 0 <= i < |rows| ==> outcomes[i] == convert(rows[i])
  {
    if rows == [] then [] else [convert(rows[0])] + Outcomes(rows[1..], convert)
  }

  /** The loop's effect on the output file: lines are appended until the first error. */
  function Collect(outcomes: seq<RowOutcome>): Conversion
  {
    if outcomes == [] then Conversion([], None)
    else match outcomes[0]
      case Failure(e) => Conversion([], Some(e))
      case Success(None) => Collect(outcomes[1..])
      case Success(Some(l)) =>
        var rest := Collect(outcomes[1..]);
        Conversion([l] + rest.written, rest.error)
  }

  /** The conversion of the table body, row by row, stopping at the first error. */
  function Convert(rows: seq<string>): Conversion
  {
    Collect(Outcomes(rows, ConvertRow))
  }

  /** The whole file: the first line is the header and is never converted. */
  function BedFile(lines: seq<string>): Conversion
  {
    if lines == [] then Conversion([], None) else Convert(lines[1..])
  }

  /** `(written, c)` extended in front by lines already written. */
  function After(written: seq<string>, c: Conversion): Conversion
  {
    Conversion(written + c.written, c.error)
  }

  /** gsToBed(inpath, outpath) */
  method ConvertToBed(lines: seq<string>) returns (written: seq<string>, error: Option<BedError>)
    ensures Conversion(written, error) == BedFile(lines)
    ensures |lines| <= 1 ==> written == [] && error == None
  {
    written, error := [], None;
    if lines == [] {
      return;
    }
    var i := 1;
    while i < |lines|
      invariant 1 <= i <= |lines|
      invariant BedFile(lines) == After(written, Convert(lines[i..]))
    {
      ConvertStep(lines[i..]);
      assert lines[i..][0] == lines[i] && lines[i..][1..] == lines[i + 1..];
      match ConvertRow(lines[i]) {
        case Failure(e) =>
          assert written + [] == written;
          error := Some(e);
          return;
        case Success(None) =>
        case Success(Some(l)) =>
          AfterAfter(written, [l], Convert(lines[i + 1..]));
          written := written + [l];
      }
      i := i + 1;
    }
    assert lines[i..] == [];
  }

  // ---------------------------------------------------------------------------
  // Properties of the conversion

  /** Lines written in two batches are the lines of both, in order. */
  lemma AfterAfter(a: seq<string>, b: seq<string>, c: Conversion)
    ensures After(a, After(b, c)) == After(a + b, c)
  {
    assert a + (b + c.written) == (a + b) + c.written;
  }

  /** One step of the row loop: the first row's outcome decides what happens to the rest. */
  lemma ConvertStep(rows: seq<string>)
    requires rows != []
    ensures Convert(rows) == match ConvertRow(rows[0])
      case Failure(e) => Conversion([], Some(e))
      case Success(None) => Convert(rows[1..])
      case Success(Some(l)) => After([l], Convert(rows[1..]))
  {
    assert Outcomes(rows, ConvertRow) == [ConvertRow(rows[0])] + Outcomes(rows[1..], ConvertRow);
  }

  /** Collecting two runs of outcomes: the second is reached only if the first raised nothing. */
  lemma {:induction false} CollectAppend(a: seq<RowOutcome>, b: seq<RowOutcome>)
    ensures Collect(a + b) ==
      if Collect(a).error == None then After(Collect(a).written, Collect(b)) else Collect(a)
  {
    if a == [] {
      assert a + b == b;
    } else {
      assert (a + b)[0] == a[0] && (a + b)[1..] == a[1..] + b;
      CollectAppend(a[1..], b);
    }
  }

  lemma OutcomesAppend(a: seq<string>, b: seq<string>, convert: string -> RowOutcome)
    ensures Outcomes(a + b, convert) == Outcomes(a, convert) + Outcomes(b, convert)
  {
    assert forall i :: |a| <= i < |a + b| ==> (a + b)[i] == b[i - |a|];
  }

  /** Converting a table in two parts: the second part runs only if the first raised nothing. */
  lemma ConvertAppend(a: seq<string>, b: seq<string>)
    ensures Convert(a + b) ==
      if Convert(a).error == None then After(Convert(a).written, Convert(b)) else Convert(a)
  {
    OutcomesAppend(a, b, ConvertRow);
    CollectAppend(Outcomes(a, ConvertRow), Outcomes(b, ConvertRow));
  }

  lemma {:induction false} CollectSucceedsIff(outcomes: seq<RowOutcome>)
    ensures Collect(outcomes).error == None <==> forall i :: 0 <= i < |outcomes| ==> outcomes[i].Success?
  {
    if outcomes != [] {
      CollectSucceedsIff(outcomes[1..]);
      assert forall i :: 1 <= i < |outcomes| ==> outcomes[i] == outcomes[1..][i - 1];
    }
  }

  /** The conversion raises nothing exactly when no row raises anything. */
  lemma ConvertSucceedsIff(rows: seq<string>)
    ensures Convert(rows).error == None <==> forall i :: 0 <= i < |rows| ==> ConvertRow(rows[i]).Success?
  {
    CollectSucceedsIff(Outcomes(rows, ConvertRow));
  }

  /** Converting a table whose first row raises nothing: that row's line, if retained, then the rest. */
  lemma ConvertFirstRow(rows: seq<string>)
    requires rows != [] && ConvertRow(rows[0]).Success?
    ensures Convert(rows).error == Convert(rows[1..]).error
    ensures Convert(rows).written
      == (if Retained(rows[0]) then [RowLine(rows[0])] else []) + Convert(rows[1..]).written
  {
    assert Outcomes(rows, ConvertRow) == [ConvertRow(rows[0])] + Outcomes(rows[1..], ConvertRow);
    ConvertRowWritesRetained(rows[0]);
  }

  /** Without an error, one line per retained row, in table order. */
  lemma {:induction false} ConvertWritesRetainedRows(rows: seq<string>)
    requires Convert(rows).error == None
    ensures |Convert(rows).written| == |RetainedRows(rows)|
    ensures forall k :: 0 <= k < |RetainedRows(rows)| ==>
      Convert(rows).written[k] == RowLine(RetainedRows(rows)[k])
  {
    if rows != [] {
      assert Outcomes(rows, ConvertRow)[0] == ConvertRow(rows[0]);
      ConvertFirstRow(rows);
      ConvertWritesRetainedRows(rows[1..]);
      var head := if Retained(rows[0]) then [rows[0]] else [];
      assert RetainedRows(rows) == head + RetainedRows(rows[1..]);
    }
  }

  lemma {:induction false} CollectFirstFailure(outcomes: seq<RowOutcome>)
    requires Collect(outcomes).error.Some?
    ensures exists k :: (0 <= k < |outcomes| && outcomes[k] == Failure(Collect(outcomes).error.value)
      && Collect(outcomes[..k]).error == None
      && Collect(outcomes).written == Collect(outcomes[..k]).written)
  {
    if outcomes[0].Success? {
      var rest := outcomes[1..];
      CollectFirstFailure(rest);
      var k :| 0 <= k < |rest| && rest[k] == Failure(Collect(rest).error.value)
        && Collect(rest[..k]).error == None
        && Collect(rest).written == Collect(rest[..k]).written;
      assert outcomes[k + 1] == rest[k];
      assert outcomes[..k + 1][0] == outcomes[0] && outcomes[..k + 1][1..] == rest[..k];
    } else {
      assert outcomes[..0] == [];
    }
  }

  /** An error is the first failing row's, and the lines of the rows before it stay written. */
  lemma ConvertStopsAtFirstError(rows: seq<string>)
    requires Convert(rows).error.Some?
    ensures exists k :: (0 <= k < |rows| && ConvertRow(rows[k]) == Failure(Convert(rows).error.value)
      && Convert(rows[..k]).error == None && Convert(rows).written == Convert(rows[..k]).written)
  {
    var outcomes := Outcomes(rows, ConvertRow);
    CollectFirstFailure(outcomes);
    var k :| 0 <= k < |outcomes| && outcomes[k] == Failure(Collect(outcomes).error.value)
      && Collect(outcomes[..k]).error == None
      && Collect(outcomes).written == Collect(outcomes[..k]).written;
    assert Outcomes(rows[..k], ConvertRow) == outcomes[..k];
    assert ConvertRow(rows[k]) == outcomes[k];
  }

  /** The header line is read and dropped, whatever it holds. */
  lemma HeaderNeverConverted(header: string, rows: seq<string>)
    ensures BedFile([header] + rows) == Convert(rows)
  {
    assert ([header] + rows)[1..] == rows;
  }

  /** A row raises exactly when it has no field 12, when field 12 is not a number, or when it is retained with a short location. */
  lemma ConvertRowFails(line: string)
    ensures ConvertRow(line).Failure? <==>
      || |Fields(line)| <= SupportField
      || ParseNumber(Fields(line)[SupportField]).None?
      || (Retained(line) && |Coordinates(Fields(line)[LocationField])| < 3)
  {
  }

  /** Every written line is four tab-separated columns ending in a newline. */
  lemma RowLineHasFourColumns(line: string)
    requires ConvertRow(line).Success? && ConvertRow(line).value.Some?
    ensures var l := ConvertRow(line).value.value;
      var fields := Fields(line);
      var coords := Coordinates(fields[LocationField]);
      && |l| > 0 && l[|l| - 1] == '\n'
      && Split(l[..|l| - 1], '\t') == [coords[0], coords[1], coords[2], fields[NameField]]
  {
    var fields := Fields(line);
    var location := fields[LocationField];
    var coords := Coordinates(location);
    SplitPiecesFree(line, '\t');
    ReplaceAvoids(location, ':', '-', '\t');
    SplitPiecesAvoid(Replace(location, ':', '-'), '-', '\t');
    var l := ConvertRow(line).value.value;
    var body := Join([coords[0], coords[1], coords[2], fields[NameField]], '\t');
    assert l[..|l| - 1] == body;
    JoinThenSplit([coords[0], coords[1], coords[2], fields[NameField]], '\t');
  }

  predicate Plain(s: string)
  {
    ':' !in s && '-' !in s
  }

  /** A location `c:s-e` parses into `c`, `s` and `e`, which spell the location again. */
  lemma LocationRoundTrip(c: string, s: string, e: string)
    requires Plain(c) && Plain(s) && Plain(e)
    ensures Coordinates(c + ":" + s + "-" + e) == [c, s, e]
    ensures var p := Coordinates(c + ":" + s + "-" + e); p[0] + ":" + p[1] + "-" + p[2] == c + ":" + s + "-" + e
  {
    ReplaceConcat(c + ":" + s + "-", e, ':', '-');
    ReplaceConcat(c + ":" + s, "-", ':', '-');
    ReplaceConcat(c + ":", s, ':', '-');
    ReplaceConcat(c, ":", ':', '-');
    assert Replace(c + ":" + s + "-" + e, ':', '-') == c + "-" + s + "-" + e;
    assert [c, s, e][1..] == [s, e] && [s, e][1..] == [e];
    assert Join([s, e], '-') == s + "-" + e;
    assert Join([c, s, e], '-') == c + "-" + s + "-" + e;
    JoinThenSplit([c, s, e], '-');
  }

  /** A retained row located at `c:s-e` is written as `c`, `s`, `e` and its field 3. */
  lemma PlainRowLine(line: string, c: string, s: string, e: string)
    requires Plain(c) && Plain(s) && Plain(e)
    requires |Fields(line)| > SupportField && Fields(line)[LocationField] == c + ":" + s + "-" + e
    requires Retained(line)
    ensures ConvertRow(line) == Success(Some(BedLine(c, s, e, Fields(line)[NameField])))
  {
    LocationRoundTrip(c, s, e);
  }

  /** Replacing the colon of `c:s-e-extra` leaves `c-s-e-` and the replaced extra text. */
  lemma ReplaceInLongLocation(c: string, s: string, e: string, extra: string)
    requires Plain(c) && Plain(s) && Plain(e)
    ensures Replace(c + ":" + s + "-" + e + "-" + extra, ':', '-')
      == c + "-" + (s + "-" + (e + "-" + Replace(extra, ':', '-')))
  {
    var x := s + "-" + e + "-";
    assert c + ":" + s + "-" + e + "-" + extra == (c + ":") + (x + extra);
    ReplaceConcat(c + ":", x + extra, ':', '-');
    ReplaceConcat(c, ":", ':', '-');
    ReplaceConcat(x, extra, ':', '-');
    ReplaceAbsent(x, ':', '-');
  }

  /** Pieces of the location beyond the third do not reach the output. */
  lemma ExtraLocationPiecesIgnored(c: string, s: string, e: string, extra: string)
    requires Plain(c) && Plain(s) && Plain(e)
    ensures |Coordinates(c + ":" + s + "-" + e + "-" + extra)| >= 3
    ensures Coordinates(c + ":" + s + "-" + e + "-" + extra)[..3] == [c, s, e]
  {
    var t := Replace(extra, ':', '-');
    ReplaceInLongLocation(c, s, e, extra);
    SplitAtSeparator(e, t, '-');
    SplitAtSeparator(s, e + "-" + t, '-');
    SplitAtSeparator(c, s + "-" + (e + "-" + t), '-');
  }
}
