/** The reader of tabulated interior models (the `.dat` files of the
    Rivoldini model collection): four header lines, then one radius and
    density pair per line. The rows are copied as they are, the lithosphere
    shell is located on the radius column, and the last density is then set
    to 0, the vacuum above the surface. */
module Table {
  import opened Types
  import Locator

  /** A line of the file as far as the reader is concerned: a line whose
      first two fields read as numbers, or any other text. */
  datatype TableLine = Text | Pair(r: real, rho: real)

  datatype TableError =
    | TooShort                                  // four lines or fewer: no data row
    | Unparsable(line: nat)                     // a data line that is not a number pair
    | NoLithosphere(cause: Locator.LocateError) // the scan found no lithosphere shell

  /** A table turned into a profile, with the located lithosphere index. */
  datatype TableModel = TableModel(radius: seq<real>, rho: seq<real>, iLith: nat)

  const HeaderLines: nat := 4

  /** The first line at or after `from` that is not a number pair. */
  function FirstText(lines: seq<TableLine>, from: nat): (r: Option<nat>)
    requires from <= |lines|
    ensures r.Some? ==> from <= r.value < |lines| && lines[r.value].Text?
    ensures r.Some? ==> forall k :: from <= k < r.value ==> lines[k].Pair?
    ensures r.None? ==> forall k :: from <= k < |lines| ==> lines[k].Pair?
    decreases |lines| - from
  {
    if from == |lines| then None
    else if lines[from].Text? then Some(from)
    else FirstText(lines, from + 1)
  }

  /** The radius column of the data lines. */
  function BodyRadii(lines: seq<TableLine>): (rs: seq<real>)
    requires |lines| >= HeaderLines && FirstText(lines, HeaderLines).None?
    ensures |rs| == |lines| - HeaderLines
  {
    seq(|lines| - HeaderLines, i requires 0 <= i < |lines| - HeaderLines => lines[i + HeaderLines].r)
  }

  /** The density column of the data lines, as read. */
  function BodyDensities(lines: seq<TableLine>): (ds: seq<real>)
    requires |lines| >= HeaderLines && FirstText(lines, HeaderLines).None?
    ensures |ds| == |lines| - HeaderLines
  {
    seq(|lines| - HeaderLines, i requires 0 <= i < |lines| - HeaderLines => lines[i + HeaderLines].rho)
  }

  /** What reading a table yields, errors in the order the reader meets them. */
  function TableSpec(lines: seq<TableLine>, dLith: real): (r: Result<TableModel, TableError>)
    ensures r.Ok? ==> |r.value.radius| == |r.value.rho| == |lines| - HeaderLines > 0
    ensures r.Ok? ==> r.value.iLith < |r.value.radius| && r.value.rho[|r.value.rho| - 1] == 0.0
  {
    if |lines| < HeaderLines then Err(TooShort)
    else if FirstText(lines, HeaderLines).Some? then Err(Unparsable(FirstText(lines, HeaderLines).value))
    else if |lines| == HeaderLines then Err(TooShort)
    else
      var rs := BodyRadii(lines);
      var loc := Locator.LocateSpec(rs, rs[|rs| - 1] - dLith);
      if loc.Err? then Err(NoLithosphere(loc.error))
      else Ok(TableModel(rs, BodyDensities(lines)[|rs| - 1 := 0.0], loc.value))
  }

  /** Reads a table and locates the shell at the given lithosphere thickness
      below the last radius, in the order the script does: copy, locate,
      then zero the last density. */
  method ReadTable(lines: seq<TableLine>, dLith: real) returns (res: Result<TableModel, TableError>)
    ensures res == TableSpec(lines, dLith)
  {
    if |lines| < HeaderLines {
      return Err(TooShort);
    }
    var num := |lines| - HeaderLines;
    var radius := new real[num];
    var rho := new real[num];
    var bad := CopyRows(lines, radius, rho);
    if bad.Some? {
      return Err(Unparsable(bad.value));
    }
    if num == 0 {
      return Err(TooShort);
    }
    var r0 := radius[num - 1];
    var loc := Locator.Locate(radius, r0 - dLith);
    if loc.Err? {
      return Err(NoLithosphere(loc.error));
    }
    var n := num - 1;
    rho[n] := 0.0;
    res := Ok(TableModel(radius[..], rho[..], loc.value));
  }

  /** Copies the data lines into the preallocated columns, stopping at the
      first line that is not a number pair. */
  method CopyRows(lines: seq<TableLine>, radius: array<real>, rho: array<real>) returns (bad: Option<nat>)
    requires |lines| >= HeaderLines && radius.Length == rho.Length == |lines| - HeaderLines && radius != rho
    modifies radius, rho
    ensures bad == FirstText(lines, HeaderLines)
    ensures bad.None? ==> radius[..] == BodyRadii(lines) && rho[..] == BodyDensities(lines)
  {
    var num := |lines| - HeaderLines;
    var i := 0;
    while i < num
      invariant 0 <= i <= num
      invariant FirstText(lines, HeaderLines) == FirstText(lines, i + HeaderLines)
      invariant forall k :: HeaderLines <= k < i + HeaderLines ==> lines[k].Pair?
      invariant forall k :: 0 <= k < i ==> radius[k] == lines[k + HeaderLines].r && rho[k] == lines[k + HeaderLines].rho
    {
      match lines[i + HeaderLines]
      case Text =>
        return Some(i + HeaderLines);
      case Pair(r, d) =>
        radius[i] := r;
        rho[i] := d;
      i := i + 1;
    }
    bad := None;
    assert radius[..] == BodyRadii(lines);
    assert rho[..] == BodyDensities(lines);
  }

  /** A table with four lines or fewer is refused, and so is one with a line
      that is not a number pair, at the first such line. A table that is read
      has len(lines) - 4 rows, each radius that of its line and each density
      that of its line except the last, which is 0. Its lithosphere index is
      what the scan finds on its own radius column: zeroing the last density
      after the scan cannot change the index, since the scan reads radii only. */
  lemma TableMeaning(lines: seq<TableLine>, dLith: real)
    ensures |lines| <= HeaderLines ==> TableSpec(lines, dLith) == Err(TooShort)
    ensures TableSpec(lines, dLith).Err? && TableSpec(lines, dLith).error.Unparsable? ==>
      var j := TableSpec(lines, dLith).error.line;
      HeaderLines <= j < |lines| && lines[j].Text? &&
      forall k :: HeaderLines <= k < j ==> lines[k].Pair?
    ensures TableSpec(lines, dLith).Ok? ==>
      var m := TableSpec(lines, dLith).value;
      var n := |lines| - HeaderLines;
      n > 0 && |m.radius| == |m.rho| == n &&
      (forall k :: HeaderLines <= k < |lines| ==> lines[k].Pair?) &&
      (forall i :: 0 <= i < n ==> m.radius[i] == lines[i + HeaderLines].r) &&
      (forall i :: 0 <= i < n - 1 ==> m.rho[i] == lines[i + HeaderLines].rho) &&
      m.rho[n - 1] == 0.0 &&
      m.iLith < n &&
      Locator.LocateSpec(m.radius, m.radius[n - 1] - dLith) == Ok(m.iLith)
  {
  }
}
