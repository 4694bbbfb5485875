/** The reader of layered interior-model decks (the `.deck` files of the
    Smrekar model collection): header checks, the walk over consecutive entry
    pairs that turns discontinuity pairs into boundary indices and every other
    pair into one layer row, the terminal vacuum row, and the mantle and core
    densities read just below the crust and core boundaries. */
module Deck {
  import opened Types

  /** The header fields the reader uses: field 2 of line 1 (the polynomial
      flag) and fields 0, 2 and 3 of line 2 (the declared entry count and the
      1-based entry numbers of the core and crust boundaries). */
  datatype DeckHeader = DeckHeader(polyFlag: real, numFile: int, coreEntry: int, crustEntry: int)

  /** One data line of the deck, from line 3 on: a radius and a density. */
  datatype Entry = Entry(r: real, rho: real)

  datatype DeckError =
    | UnsupportedPolynomial  // the polynomial flag is not 1
    | TooFewEntries          // fewer than two entries declared: no pair to walk
    | TruncatedDeck          // the file holds fewer data lines than declared

  /** A deck turned into a profile: radius and density columns, and the
      profile indices recorded at the declared core and crust boundaries
      (None when the declared entry is not a discontinuity pair). */
  datatype DeckProfile = DeckProfile(radius: seq<real>, rho: seq<real>, iCore: Option<nat>, iCrust: Option<nat>)

  /** Pair i (entries i and i + 1) is a discontinuity marker. */
  predicate IsMarker(e: seq<Entry>, i: nat)
    requires i + 1 < |e|
  {
    e[i].r == e[i + 1].r
  }

  /** The rows emitted by the first k entry pairs: nothing for a marker pair,
      otherwise the bottom radius with the mean of the two densities. */
  function Rows(e: seq<Entry>, k: nat): (rows: seq<Shell>)
    requires k < |e|
    ensures |rows| <= k
  {
    if k == 0 then []
    else if IsMarker(e, k - 1) then Rows(e, k - 1)
    else Rows(e, k - 1) + [Shell(e[k - 1].r, (e[k].rho + e[k - 1].rho) / 2.0)]
  }

  /** The whole profile of a deck with n entries: the layer rows and the
      terminal row at the last radius, with the density above the surface 0. */
  function Profile(e: seq<Entry>, n: nat): (p: seq<Shell>)
    requires 2 <= n <= |e|
    ensures 1 <= |p| <= n
    ensures p[|p| - 1] == Shell(e[n - 1].r, 0.0)
    ensures |p| - 1 == |Rows(e, n - 1)| && forall k :: 0 <= k < |p| - 1 ==> p[k] == Rows(e, n - 1)[k]
  {
    Rows(e, n - 1) + [Shell(e[n - 1].r, 0.0)]
  }

  /** The index recorded for the boundary declared at 0-based pair m, when the
      walk has looked at the first k pairs. */
  function Marker(e: seq<Entry>, m: int, k: nat): (r: Option<nat>)
    requires k < |e|
    ensures r.Some? ==> 0 <= m < k && IsMarker(e, m) && r.value <= |Rows(e, k)|
    ensures r.Some? <==> 0 <= m < k && IsMarker(e, m)
    ensures r.Some? ==> m < |e| && r.value == |Rows(e, m)|
  {
    if 0 <= m < k && IsMarker(e, m) then
      RowsPrefix(e, m, k);
      Some(|Rows(e, m)|)
    else None
  }

  /** What reading a deck yields, error cases first in the order the reader
      meets them. */
  function DeckSpec(h: DeckHeader, e: seq<Entry>): (r: Result<DeckProfile, DeckError>)
    ensures r.Ok? ==> WellFormed(r.value)
  {
    if h.polyFlag != 1.0 then Err(UnsupportedPolynomial)
    else if h.numFile < 2 then Err(TooFewEntries)
    else if |e| < h.numFile then Err(TruncatedDeck)
    else
      var p := Profile(e, h.numFile);
      Ok(DeckProfile(Radii(p), Densities(p),
                     Marker(e, h.coreEntry - 1, h.numFile - 1),
                     Marker(e, h.crustEntry - 1, h.numFile - 1)))
  }

  /** Reads a deck whose header and data lines are already parsed: `e` holds
      the data lines from line 3 of the file on. */
  method ReadDeck(h: DeckHeader, e: seq<Entry>) returns (res: Result<DeckProfile, DeckError>)
    ensures res == DeckSpec(h, e)
    ensures h.polyFlag != 1.0 ==> res == Err(UnsupportedPolynomial)
  {
    if h.polyFlag != 1.0 {
      return Err(UnsupportedPolynomial);
    }
    if h.numFile < 2 {
      return Err(TooFewEntries);
    }
    if |e| < h.numFile {
      return Err(TruncatedDeck);
    }
    var n := h.numFile;
    var radius := new real[n];
    var rho := new real[n];
    var num, iCore, iCrust := WalkPairs(e, n, h.coreEntry - 1, h.crustEntry - 1, radius, rho);
    ghost var p := Profile(e, n);
    assert radius[..num] == Radii(p);
    assert rho[..num] == Densities(p);
    res := Ok(DeckProfile(radius[..num], rho[..num], iCore, iCrust));
  }

  /** The walk over the n - 1 entry pairs, filling the preallocated columns at
      the running counter and appending the terminal row. */
  method WalkPairs(e: seq<Entry>, n: int, iCoreFile: int, iCrustFile: int, radius: array<real>, rho: array<real>)
    returns (num: nat, iCore: Option<nat>, iCrust: Option<nat>)
    requires 2 <= n <= |e| && radius.Length == n && rho.Length == n && radius != rho
    modifies radius, rho
    ensures num == |Profile(e, n)|
    ensures forall k :: 0 <= k < num ==> radius[k] == Profile(e, n)[k].r && rho[k] == Profile(e, n)[k].rho
    ensures iCore == Marker(e, iCoreFile, n - 1) && iCrust == Marker(e, iCrustFile, n - 1)
  {
    num := 0;
    iCore, iCrust := None, None;
    var rt := e[0].r;
    var i := 0;
    while i < n - 1
      invariant 0 <= i <= n - 1
      invariant num == |Rows(e, i)| && num <= i
      invariant forall k :: 0 <= k < num ==> radius[k] == Rows(e, i)[k].r && rho[k] == Rows(e, i)[k].rho
      invariant iCore == Marker(e, iCoreFile, i)
      invariant iCrust == Marker(e, iCrustFile, i)
      invariant i > 0 ==> rt == e[i].r
    {
      WalkStep(e, iCoreFile, i);
      WalkStep(e, iCrustFile, i);
      var rb, rhob := e[i].r, e[i].rho;
      var rhot;
      rt, rhot := e[i + 1].r, e[i + 1].rho;
      if rb == rt {
        if i == iCoreFile {
          iCore := Some(num);
        }
        if i == iCrustFile {
          iCrust := Some(num);
        }
      } else {
        radius[num] := rb;
        rho[num] := (rhot + rhob) / 2.0;
        num := num + 1;
      }
      i := i + 1;
    }
    radius[num] := rt;
    rho[num] := 0.0;
    num := num + 1;
  }

  /** One step of the walk in terms of `Rows` and `Marker`: a marker pair emits
      no row, any other pair appends exactly its mean row after the rows
      already emitted, and the boundary index is set only at a marker pair
      that is the declared one. */
  lemma WalkStep(e: seq<Entry>, m: int, k: nat)
    requires k + 1 < |e|
    ensures Rows(e, k + 1) == if IsMarker(e, k) then Rows(e, k)
      else Rows(e, k) + [Shell(e[k].r, (e[k + 1].rho + e[k].rho) / 2.0)]
    ensures Marker(e, m, k + 1) == if m == k && IsMarker(e, k) then Some(|Rows(e, k)|) else Marker(e, m, k)
  {
  }

  // ---- Properties of the rows a deck yields ----

  /** The first layer row lies at the first entry's radius: every pair before
      it is a marker pair. Until a row is emitted, entry k still has the first
      entry's radius. */
  lemma {:induction false} FirstRow(e: seq<Entry>, k: nat)
    requires k < |e|
    ensures |Rows(e, k)| == 0 ==> e[k].r == e[0].r
    ensures |Rows(e, k)| > 0 ==> Rows(e, k)[0].r == e[0].r
  {
    if k > 0 {
      FirstRow(e, k - 1);
      if |Rows(e, k - 1)| > 0 {
        RowsPrefix(e, k - 1, k);
        assert Rows(e, k)[0] == Rows(e, k)[..|Rows(e, k - 1)|][0];
      }
    }
  }

  /** Rows already emitted are never rewritten by later pairs. */
  lemma {:induction false} RowsPrefix(e: seq<Entry>, j: nat, k: nat)
    requires j <= k < |e|
    ensures |Rows(e, j)| <= |Rows(e, k)|
    ensures Rows(e, k)[..|Rows(e, j)|] == Rows(e, j)
  {
    if j < k {
      RowsPrefix(e, j, k - 1);
      assert Rows(e, k)[..|Rows(e, k - 1)|] == Rows(e, k - 1);
    }
  }

  /** For entries with nondecreasing radii, the rows of the first k pairs have
      strictly increasing radii, all at least the first entry's radius and
      below entry k's radius. */
  lemma {:induction false} RowsIncreasing(e: seq<Entry>, k: nat)
    requires k < |e|
    requires forall i :: 0 <= i < k ==> e[i].r <= e[i + 1].r
    ensures StrictlyIncreasing(Radii(Rows(e, k)))
    ensures forall j :: 0 <= j < |Rows(e, k)| ==> e[0].r <= Rows(e, k)[j].r < e[k].r
  {
    if k > 0 {
      RowsIncreasing(e, k - 1);
      var prev := Rows(e, k - 1);
      if !IsMarker(e, k - 1) {
        var cur := Rows(e, k);
        assert cur == prev + [Shell(e[k - 1].r, (e[k].rho + e[k - 1].rho) / 2.0)];
        assert k - 1 > 0 ==> e[0].r <= e[k - 1].r by {
          if k - 1 > 0 { RadiusChain(e, 0, k - 1); }
        }
        forall i, j | 0 <= i < j < |cur| ensures Radii(cur)[i] < Radii(cur)[j] {
          if j < |prev| {
            assert Radii(prev)[i] < Radii(prev)[j];
          }
        }
      }
    }
  }

  /** Nondecreasing consecutive radii are nondecreasing between any two entries. */
  lemma {:induction false} RadiusChain(e: seq<Entry>, i: nat, j: nat)
    requires i <= j < |e|
    requires forall k :: 0 <= k < j ==> e[k].r <= e[k + 1].r
    ensures e[i].r <= e[j].r
  {
    if i < j {
      RadiusChain(e, i, j - 1);
    }
  }

  /** Every successful read yields equal-length columns of at most the declared
      entry count, ending in the terminal row: the last entry's radius (the
      surface radius of the model) with density 0. Boundary indices lie within
      the profile. */
  lemma DeckShape(h: DeckHeader, e: seq<Entry>)
    requires DeckSpec(h, e).Ok?
    ensures var p := DeckSpec(h, e).value;
      1 <= |p.radius| == |p.rho| <= h.numFile &&
      p.radius[|p.radius| - 1] == e[h.numFile - 1].r &&
      p.rho[|p.rho| - 1] == 0.0 &&
      (p.iCore.Some? ==> p.iCore.value < |p.radius|) &&
      (p.iCrust.Some? ==> p.iCrust.value < |p.radius|)
  {
  }

  /** For a deck whose entry radii do not decrease, the profile radii strictly
      increase. */
  lemma DeckIncreasing(h: DeckHeader, e: seq<Entry>)
    requires DeckSpec(h, e).Ok?
    requires forall i :: 0 <= i < h.numFile - 1 ==> e[i].r <= e[i + 1].r
    ensures StrictlyIncreasing(DeckSpec(h, e).value.radius)
  {
    var n := h.numFile;
    RowsIncreasing(e, n - 1);
    var rows := Rows(e, n - 1);
    var p := Profile(e, n);
    forall i, j | 0 <= i < j < |p| ensures Radii(p)[i] < Radii(p)[j] {
      if j < |rows| {
        assert Radii(rows)[i] < Radii(rows)[j];
      } else {
        assert rows[i].r < e[n - 1].r;
      }
    }
  }

  /** From a marker pair j on, the row at index |Rows(e, j)| is either not yet
      emitted, and every pair since j was a marker, or has the boundary's radius. */
  lemma {:induction false} BoundaryRowRadius(e: seq<Entry>, j: nat, k: nat)
    requires j < k < |e|
    requires IsMarker(e, j)
    ensures var m := |Rows(e, j)|;
      (|Rows(e, k)| == m && e[k].r == e[j].r) ||
      (|Rows(e, k)| > m && Rows(e, k)[m].r == e[j].r)
  {
    var m := |Rows(e, j)|;
    if k == j + 1 {
      assert Rows(e, k) == Rows(e, j);
    } else {
      BoundaryRowRadius(e, j, k - 1);
      if |Rows(e, k - 1)| > m {
        RowsPrefix(e, k - 1, k);
        assert Rows(e, k)[m] == Rows(e, k)[..|Rows(e, k - 1)|][m];
      }
    }
  }

  /** The profile radius at a recorded boundary index is the radius of the
      declared discontinuity pair: the core radius and the crust (mantle top)
      radius reported for the model. */
  lemma MarkerRadius(h: DeckHeader, e: seq<Entry>, m: int)
    requires DeckSpec(h, e).Ok?
    requires Marker(e, m, h.numFile - 1).Some?
    ensures 0 <= m < h.numFile - 1
    ensures var p := DeckSpec(h, e).value;
      Marker(e, m, h.numFile - 1).value < |p.radius| &&
      p.radius[Marker(e, m, h.numFile - 1).value] == e[m].r
  {
    var n := h.numFile;
    BoundaryRowRadius(e, m, n - 1);
  }

  /** Minimal deck: one layer pair, one boundary pair and the terminal entry
      give a two-row profile whose terminal density is 0, with the boundary at
      index 1. */
  lemma MinimalDeck()
    ensures DeckSpec(DeckHeader(1.0, 3, 2, 2), [Entry(0.0, 8.0), Entry(100.0, 6.0), Entry(100.0, 3.0)])
      == Ok(DeckProfile([0.0, 100.0], [7.0, 0.0], Some(1), Some(1)))
  {
    var e := [Entry(0.0, 8.0), Entry(100.0, 6.0), Entry(100.0, 3.0)];
    assert Rows(e, 1) == [Shell(0.0, 7.0)];
    assert Rows(e, 2) == [Shell(0.0, 7.0)];
    assert Profile(e, 3) == [Shell(0.0, 7.0), Shell(100.0, 0.0)];
    assert Radii(Profile(e, 3)) == [0.0, 100.0];
    assert Densities(Profile(e, 3)) == [7.0, 0.0];
  }

  // ---- Mantle and core densities ----

  /** The indices of a profile that the density lookup may use. */
  predicate WellFormed(p: DeckProfile) {
    1 <= |p.rho| == |p.radius| &&
    (p.iCore.Some? ==> p.iCore.value < |p.rho|) &&
    (p.iCrust.Some? ==> p.iCrust.value < |p.rho|)
  }

  datatype MantleCore = MantleCore(mantle: real, core: real)

  datatype LookupError = MissingCrustBoundary | MissingCoreBoundary | IndexOutOfRange

  /** The mantle density is the density of the row just below the crust
      boundary and the core density that of the row just below the core
      boundary; Python's `rho[-1]` wraps round to the last row. A boundary
      that the deck never recorded is an error, crust first. */
  function MantleCoreDensities(p: DeckProfile): (r: Result<MantleCore, LookupError>)
    requires WellFormed(p)
    ensures r.Err? <==> p.iCrust.None? || p.iCore.None?
    ensures r == Err(MissingCrustBoundary) <==> p.iCrust.None?
    ensures r.Ok? ==>
      (p.iCrust.value > 0 ==> r.value.mantle == p.rho[p.iCrust.value - 1]) &&
      (p.iCrust.value == 0 ==> r.value.mantle == p.rho[|p.rho| - 1]) &&
      (p.iCore.value > 0 ==> r.value.core == p.rho[p.iCore.value - 1]) &&
      (p.iCore.value == 0 ==> r.value.core == p.rho[|p.rho| - 1])
  {
    match (p.iCrust, p.iCore)
    case (None, _) => Err(MissingCrustBoundary)
    case (_, None) => Err(MissingCoreBoundary)
    case (Some(ic), Some(ik)) => Ok(MantleCore(PyIndex(p.rho, ic - 1), PyIndex(p.rho, ik - 1)))
  }

  /** The density lookup as the script performs it inside its loop over decks:
      `i_crust` and `i_core` are assigned only when a declared boundary is
      met, so a deck that never records one reuses the index left by an
      earlier deck (`prevCrust`, `prevCore`); only when no deck ever set it is
      the name undefined. A stale index beyond this profile is an index error. */
  function DensitiesAsWritten(p: DeckProfile, prevCrust: Option<nat>, prevCore: Option<nat>): (r: Result<MantleCore, LookupError>)
    requires 1 <= |p.rho|
    ensures var ic := if p.iCrust.Some? then p.iCrust else prevCrust;
      var ik := if p.iCore.Some? then p.iCore else prevCore;
      (r.Err? <==> ic.None? || ic.value > |p.rho| || ik.None? || ik.value > |p.rho|) &&
      (r == Err(MissingCrustBoundary) <==> ic.None?) &&
      (ic.Some? && ic.value <= |p.rho| && ik.None? ==> r == Err(MissingCoreBoundary)) &&
      (ic.Some? && ic.value > |p.rho| ==> r == Err(IndexOutOfRange)) &&
      (r.Ok? ==> r.value == MantleCore(PyIndex(p.rho, ic.value - 1), PyIndex(p.rho, ik.value - 1)))
    ensures WellFormed(p) && p.iCrust.Some? && p.iCore.Some? ==> r == MantleCoreDensities(p)
    ensures WellFormed(p) && prevCrust.None? && prevCore.None? ==> r == MantleCoreDensities(p)
  {
    var ic := if p.iCrust.Some? then p.iCrust else prevCrust;
    var ik := if p.iCore.Some? then p.iCore else prevCore;
    if ic.None? then Err(MissingCrustBoundary)
    else if ic.value > |p.rho| then Err(IndexOutOfRange)
    else if ik.None? then Err(MissingCoreBoundary)
    else if ik.value > |p.rho| then Err(IndexOutOfRange)
    else Ok(MantleCore(PyIndex(p.rho, ic.value - 1), PyIndex(p.rho, ik.value - 1)))
  }

  /** Counterexample: a second deck whose declared core entry (2) is not a
      discontinuity pair records no core index, and the lookup as written
      reports as its core density the row below the previous deck's core index,
      while the corrected lookup refuses the deck. */
  lemma StaleCoreIndex()
    ensures var h := DeckHeader(1.0, 3, 2, 1);
      var e := [Entry(0.0, 9.0), Entry(0.0, 4.0), Entry(50.0, 4.0)];
      DeckSpec(h, e).Ok? &&
      DeckSpec(h, e).value.iCore.None? &&
      DensitiesAsWritten(DeckSpec(h, e).value, Some(0), Some(1)) == Ok(MantleCore(0.0, 4.0)) &&
      MantleCoreDensities(DeckSpec(h, e).value) == Err(MissingCoreBoundary)
  {
    var e := [Entry(0.0, 9.0), Entry(0.0, 4.0), Entry(50.0, 4.0)];
    assert Rows(e, 1) == [];
    assert Rows(e, 2) == [Shell(0.0, 4.0)];
    assert Profile(e, 3) == [Shell(0.0, 4.0), Shell(50.0, 0.0)];
  }

  /** The density read just below a recorded boundary index is that of the
      last layer row emitted before the boundary pair, or the surface row's 0
      when no layer row precedes it. */
  lemma DensityBelowMarker(h: DeckHeader, e: seq<Entry>, m: int)
    requires DeckSpec(h, e).Ok?
    requires Marker(e, m, h.numFile - 1).Some?
    ensures 0 <= m < h.numFile - 1 && IsMarker(e, m)
    ensures var p := DeckSpec(h, e).value;
      var i := Marker(e, m, h.numFile - 1).value;
      i < |p.rho| &&
      PyIndex(p.rho, i - 1) == (if i == 0 then 0.0 else Rows(e, m)[i - 1].rho)
  {
    var n := h.numFile;
    var p := DeckSpec(h, e).value;
    var i := |Rows(e, m)|;
    RowsPrefix(e, m, n - 1);
    var rows := Rows(e, n - 1);
    if i > 0 {
      assert Profile(e, n)[i - 1] == rows[i - 1] == rows[..i][i - 1];
    }
  }

  /** With the corrected lookup, the mantle and core densities of a deck are
      always its own: the density of the last layer row emitted before the
      declared crust and core pairs, or the surface row's 0 when the boundary
      is the first pair. */
  lemma DensitiesBelowBoundaries(h: DeckHeader, e: seq<Entry>)
    requires DeckSpec(h, e).Ok?
    ensures WellFormed(DeckSpec(h, e).value)
    ensures var p := DeckSpec(h, e).value;
      var ic, ik := h.crustEntry - 1, h.coreEntry - 1;
      MantleCoreDensities(p).Ok? ==>
        0 <= ic < h.numFile - 1 && IsMarker(e, ic) &&
        0 <= ik < h.numFile - 1 && IsMarker(e, ik) &&
        MantleCoreDensities(p).value.mantle ==
          (if |Rows(e, ic)| == 0 then 0.0 else Rows(e, ic)[|Rows(e, ic)| - 1].rho) &&
        MantleCoreDensities(p).value.core ==
          (if |Rows(e, ik)| == 0 then 0.0 else Rows(e, ik)[|Rows(e, ik)| - 1].rho)
  {
    DeckShape(h, e);
    var p := DeckSpec(h, e).value;
    if MantleCoreDensities(p).Ok? {
      DensityBelowMarker(h, e, h.crustEntry - 1);
      DensityBelowMarker(h, e, h.coreEntry - 1);
    }
  }
}
