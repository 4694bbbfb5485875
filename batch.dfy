/** The batch side of the script: per deck, read the profile, take its
    surface radius, locate the lithosphere shell and look up the mantle and
    core densities; the loop over decks stops at the first model that fails;
    and the running minimum and maximum of the per-model percentages over the
    tabulated models. */
module Batch {
  import opened Types
  import Deck
  import Locator

  // ---- Minimum and maximum of the percentages ----

  /** The running maximum as the loop keeps it: replaced by a value that is
      strictly larger. */
  function RunningMax(acc: real, s: seq<real>): (m: real)
    ensures acc <= m
    ensures m == acc || m in s
    decreases |s|
  {
    if |s| == 0 then acc else RunningMax(if s[0] > acc then s[0] else acc, s[1..])
  }

  /** The running minimum, replaced by a value that is strictly smaller. */
  function RunningMin(acc: real, s: seq<real>): (m: real)
    ensures m <= acc
    ensures m == acc || m in s
    decreases |s|
  {
    if |s| == 0 then acc else RunningMin(if s[0] < acc then s[0] else acc, s[1..])
  }

  /** The running maximum is the largest of the starting value and the values. */
  lemma {:induction false} RunningMaxIsGreatest(acc: real, s: seq<real>)
    ensures acc <= RunningMax(acc, s)
    ensures forall i :: 0 <= i < |s| ==> s[i] <= RunningMax(acc, s)
    ensures RunningMax(acc, s) == acc || RunningMax(acc, s) in s
    decreases |s|
  {
    if |s| > 0 {
      var acc' := if s[0] > acc then s[0] else acc;
      RunningMaxIsGreatest(acc', s[1..]);
      forall i | 0 <= i < |s| ensures s[i] <= RunningMax(acc, s) {
        if i > 0 {
          assert s[i] == s[1..][i - 1];
        }
      }
      if RunningMax(acc', s[1..]) in s[1..] {
        assert RunningMax(acc, s) in s;
      }
    }
  }

  /** The running minimum is the smallest of the starting value and the values. */
  lemma {:induction false} RunningMinIsLeast(acc: real, s: seq<real>)
    ensures RunningMin(acc, s) <= acc
    ensures forall i :: 0 <= i < |s| ==> RunningMin(acc, s) <= s[i]
    ensures RunningMin(acc, s) == acc || RunningMin(acc, s) in s
    decreases |s|
  {
    if |s| > 0 {
      var acc' := if s[0] < acc then s[0] else acc;
      RunningMinIsLeast(acc', s[1..]);
      forall i | 0 <= i < |s| ensures RunningMin(acc, s) <= s[i] {
        if i > 0 {
          assert s[i] == s[1..][i - 1];
        }
      }
      if RunningMin(acc', s[1..]) in s[1..] {
        assert RunningMin(acc, s) in s;
      }
    }
  }

  /** The minimum and maximum do not depend on the order in which the models
      are visited. */
  lemma OrderIndependent(acc: real, a: seq<real>, b: seq<real>)
    requires multiset(a) == multiset(b)
    ensures RunningMin(acc, a) == RunningMin(acc, b)
    ensures RunningMax(acc, a) == RunningMax(acc, b)
  {
    RunningMinIsLeast(acc, a);
    RunningMinIsLeast(acc, b);
    RunningMaxIsGreatest(acc, a);
    RunningMaxIsGreatest(acc, b);
    var x, y := RunningMin(acc, a), RunningMin(acc, b);
    assert forall v :: v in a <==> v in b by {
      forall v ensures v in a <==> v in b {
        assert v in a <==> v in multiset(a);
        assert v in b <==> v in multiset(b);
      }
    }
    if x != acc {
      var i :| 0 <= i < |b| && b[i] == x;
      assert y <= x;
    }
    if y != acc {
      var i :| 0 <= i < |a| && a[i] == y;
      assert x <= y;
    }
    var u, w := RunningMax(acc, a), RunningMax(acc, b);
    if u != acc {
      var i :| 0 <= i < |b| && b[i] == u;
      assert u <= w;
    }
    if w != acc {
      var i :| 0 <= i < |a| && a[i] == w;
      assert w <= u;
    }
  }

  /** The running minimum (starting at 100) and maximum (starting at 0) of the
      percentages, updated once per model in visiting order. */
  method Aggregate(percents: seq<real>) returns (pmin: real, pmax: real)
    ensures pmin == RunningMin(100.0, percents) && pmax == RunningMax(0.0, percents)
    ensures pmin <= 100.0 && (pmin == 100.0 || pmin in percents)
    ensures 0.0 <= pmax && (pmax == 0.0 || pmax in percents)
    ensures forall i :: 0 <= i < |percents| ==> pmin <= percents[i] <= pmax
  {
    pmin, pmax := 100.0, 0.0;
    var i := 0;
    while i < |percents|
      invariant 0 <= i <= |percents|
      invariant RunningMin(pmin, percents[i..]) == RunningMin(100.0, percents)
      invariant RunningMax(pmax, percents[i..]) == RunningMax(0.0, percents)
    {
      var percent := percents[i];
      assert percents[i..][1..] == percents[i + 1..];
      if percent > pmax {
        pmax := percent;
      }
      if percent < pmin {
        pmin := percent;
      }
      i := i + 1;
    }
    RunningMinIsLeast(100.0, percents);
    RunningMaxIsGreatest(0.0, percents);
  }

  /** Three models whose percentages are 10, 55 and 80 give minimum 10 and
      maximum 80, in whatever order they are visited. */
  lemma ThreeModels(s: seq<real>)
    requires multiset(s) == multiset([10.0, 55.0, 80.0])
    ensures RunningMin(100.0, s) == 10.0 && RunningMax(0.0, s) == 80.0
  {
    OrderIndependent(100.0, s, [10.0, 55.0, 80.0]);
    OrderIndependent(0.0, s, [10.0, 55.0, 80.0]);
  }

  // ---- One deck model ----

  /** What the script reports for a deck model: its profile, surface radius,
      lithosphere index, mantle and core densities, the radii at the crust
      and core boundaries, and the lithosphere depth in the discretised model. */
  datatype DeckReport = DeckReport(
    profile: Deck.DeckProfile, r0: real, iLith: nat, densities: Deck.MantleCore,
    mantleRadius: real, coreRadius: real, lithDepth: real)

  datatype ModelError =
    | BadDeck(deckError: Deck.DeckError)
    | NoLithosphere(locateError: Locator.LocateError)
    | MissingBoundary(lookupError: Deck.LookupError)

  /** What the script derives from one deck profile, errors in the order it
      meets them: a scan that runs past the end, a boundary index never
      recorded, and a lithosphere index never assigned. */
  function ReportOf(p: Deck.DeckProfile, dLith: real): (r: Result<DeckReport, ModelError>)
    requires Deck.WellFormed(p)
    ensures var r0 := p.radius[|p.radius| - 1];
      var loc := Locator.LocateSpec(p.radius, r0 - dLith);
      (r.Err? <==> loc.Err? || Deck.MantleCoreDensities(p).Err?) &&
      (r == Err(NoLithosphere(Locator.IndexPastEnd)) <==> loc == Err(Locator.IndexPastEnd)) &&
      (loc != Err(Locator.IndexPastEnd) && Deck.MantleCoreDensities(p).Err? ==>
        r == Err(MissingBoundary(Deck.MantleCoreDensities(p).error))) &&
      (loc.Err? && Deck.MantleCoreDensities(p).Ok? ==> r == Err(NoLithosphere(loc.error))) &&
      (r.Ok? ==>
        r.value.profile == p && r.value.r0 == r0 && loc == Ok(r.value.iLith) &&
        Deck.MantleCoreDensities(p) == Ok(r.value.densities) &&
        r.value.mantleRadius == p.radius[p.iCrust.value] &&
        r.value.coreRadius == p.radius[p.iCore.value] &&
        r.value.lithDepth == r0 - p.radius[r.value.iLith])
  {
    var r0 := p.radius[|p.radius| - 1];
    var loc := Locator.LocateSpec(p.radius, r0 - dLith);
    var dens := Deck.MantleCoreDensities(p);
    if loc == Err(Locator.IndexPastEnd) then Err(NoLithosphere(Locator.IndexPastEnd))
    else if dens.Err? then Err(MissingBoundary(dens.error))
    else if loc.Err? then Err(NoLithosphere(loc.error))
    else Ok(DeckReport(p, r0, loc.value, dens.value,
                       p.radius[p.iCrust.value], p.radius[p.iCore.value],
                       r0 - p.radius[loc.value]))
  }

  /** The outcome for one deck: a deck error, or what its profile yields. */
  function EvaluateDeckSpec(h: Deck.DeckHeader, e: seq<Deck.Entry>, dLith: real): (r: Result<DeckReport, ModelError>)
    ensures (r.Err? && r.error.BadDeck?) <==> Deck.DeckSpec(h, e).Err?
    ensures r.Ok? ==> Deck.DeckSpec(h, e) == Ok(r.value.profile)
  {
    match Deck.DeckSpec(h, e)
    case Err(de) => Err(BadDeck(de))
    case Ok(p) => ReportOf(p, dLith)
  }

  /** Derives the report of one deck profile. */
  method EvaluateProfile(p: Deck.DeckProfile, dLith: real) returns (res: Result<DeckReport, ModelError>)
    requires Deck.WellFormed(p)
    ensures res == ReportOf(p, dLith)
  {
    var radius := new real[|p.radius|](i requires 0 <= i < |p.radius| => p.radius[i]);
    assert radius[..] == p.radius;
    var r0 := radius[radius.Length - 1];
    var loc := Locator.Locate(radius, r0 - dLith);
    if loc == Err(Locator.IndexPastEnd) {
      return Err(NoLithosphere(Locator.IndexPastEnd));
    }
    var dens := Deck.MantleCoreDensities(p);
    if dens.Err? {
      return Err(MissingBoundary(dens.error));
    }
    if loc.Err? {
      return Err(NoLithosphere(loc.error));
    }
    var iLith := loc.value;
    res := Ok(DeckReport(p, r0, iLith, dens.value,
                         p.radius[p.iCrust.value], p.radius[p.iCore.value],
                         r0 - p.radius[iLith]));
  }

  /** Reads one deck and derives what the script reports for it. */
  method EvaluateDeck(h: Deck.DeckHeader, e: seq<Deck.Entry>, dLith: real) returns (res: Result<DeckReport, ModelError>)
    ensures res == EvaluateDeckSpec(h, e, dLith)
  {
    var dr := Deck.ReadDeck(h, e);
    if dr.Err? {
      return Err(BadDeck(dr.error));
    }
    res := EvaluateProfile(dr.value, dLith);
  }

  /** The profile of a deck with nondecreasing entry radii starts at the first
      entry's radius, ends at the last entry's and strictly increases. */
  lemma SortedDeckSpan(h: Deck.DeckHeader, e: seq<Deck.Entry>)
    requires Deck.DeckSpec(h, e).Ok?
    requires forall i :: 0 <= i < h.numFile - 1 ==> e[i].r <= e[i + 1].r
    ensures var s := Deck.DeckSpec(h, e).value.radius;
      StrictlyIncreasing(s) && s[0] == e[0].r && s[|s| - 1] == e[h.numFile - 1].r
  {
    Deck.DeckShape(h, e);
    Deck.DeckIncreasing(h, e);
    Deck.FirstRow(e, h.numFile - 1);
    assert Deck.DeckSpec(h, e).value.radius[0] == Deck.Profile(e, h.numFile)[0].r;
  }

  /** For a deck with nondecreasing entry radii and a lithosphere base inside
      the profile, the deck is reported whenever both boundaries were
      recorded: the scan always finds the lithosphere shell. */
  lemma SortedDeckReported(h: Deck.DeckHeader, e: seq<Deck.Entry>, dLith: real)
    requires Deck.DeckSpec(h, e).Ok?
    requires forall i :: 0 <= i < h.numFile - 1 ==> e[i].r <= e[i + 1].r
    requires 0.0 < dLith <= e[h.numFile - 1].r - e[0].r
    ensures Deck.MantleCoreDensities(Deck.DeckSpec(h, e).value).Ok? ==> EvaluateDeckSpec(h, e, dLith).Ok?
  {
    SortedDeckSpan(h, e);
    var s := Deck.DeckSpec(h, e).value.radius;
    Locator.InRangeLocated(s, s[|s| - 1] - dLith);
  }

  /** A reported deck has the last entry's radius as its surface radius, and
      the radii reported at the crust and core boundaries are the radii of the
      declared discontinuity pairs. */
  lemma ReportedRadii(h: Deck.DeckHeader, e: seq<Deck.Entry>, dLith: real)
    requires EvaluateDeckSpec(h, e, dLith).Ok?
    ensures var rep := EvaluateDeckSpec(h, e, dLith).value;
      rep.r0 == e[h.numFile - 1].r &&
      rep.mantleRadius == e[h.crustEntry - 1].r &&
      rep.coreRadius == e[h.coreEntry - 1].r
  {
    Deck.DeckShape(h, e);
    Deck.MarkerRadius(h, e, h.crustEntry - 1);
    Deck.MarkerRadius(h, e, h.coreEntry - 1);
  }

  /** For a profile with nondecreasing radii and a lithosphere base inside it,
      the actual lithosphere depth of the report is as close to the assumed
      thickness as the depth of any profile radius. */
  lemma SortedProfileLithosphereDepth(p: Deck.DeckProfile, dLith: real)
    requires Deck.WellFormed(p) && ReportOf(p, dLith).Ok?
    requires Nondecreasing(p.radius)
    requires 0.0 < dLith && p.radius[0] <= p.radius[|p.radius| - 1] - dLith
    ensures var rep := ReportOf(p, dLith).value;
      forall j :: 0 <= j < |p.radius| ==>
        Abs(rep.lithDepth - dLith) <= Abs((rep.r0 - p.radius[j]) - dLith)
  {
    var s := p.radius;
    var r0 := s[|s| - 1];
    var t := r0 - dLith;
    var rep := ReportOf(p, dLith).value;
    var k := Locator.LocateSpec(s, t).value;
    assert rep.r0 == r0 && rep.lithDepth == r0 - s[k];
    Locator.SortedLocatesNearest(s, t);
    DepthsFromRadii(s, k, r0, dLith);
  }

  /** A radius nearest the target radius r0 - d is a depth nearest d. */
  lemma DepthsFromRadii(s: seq<real>, k: nat, r0: real, d: real)
    requires k < |s|
    requires forall j :: 0 <= j < |s| ==> Abs(s[k] - (r0 - d)) <= Abs(s[j] - (r0 - d))
    ensures forall j :: 0 <= j < |s| ==> Abs((r0 - s[k]) - d) <= Abs((r0 - s[j]) - d)
  {
    forall j | 0 <= j < |s| ensures Abs((r0 - s[k]) - d) <= Abs((r0 - s[j]) - d) {
      assert Abs(s[k] - (r0 - d)) <= Abs(s[j] - (r0 - d));
      assert (r0 - s[k]) - d == (r0 - d) - s[k];
      assert (r0 - s[j]) - d == (r0 - d) - s[j];
    }
  }

  /** For a deck with nondecreasing entry radii and a lithosphere base inside
      the profile, the depth of the located shell below the surface is as
      close to the assumed thickness as the depth of any profile radius. */
  lemma SortedDeckLithosphereDepth(h: Deck.DeckHeader, e: seq<Deck.Entry>, dLith: real)
    requires EvaluateDeckSpec(h, e, dLith).Ok?
    requires forall i :: 0 <= i < h.numFile - 1 ==> e[i].r <= e[i + 1].r
    requires 0.0 < dLith <= e[h.numFile - 1].r - e[0].r
    ensures var rep := EvaluateDeckSpec(h, e, dLith).value;
      forall j :: 0 <= j < |rep.profile.radius| ==>
        Abs(rep.lithDepth - dLith) <= Abs((rep.r0 - rep.profile.radius[j]) - dLith)
  {
    SortedDeckSpan(h, e);
    var p := Deck.DeckSpec(h, e).value;
    assert Nondecreasing(p.radius);
    SortedProfileLithosphereDepth(p, dLith);
  }

  // ---- The loop over decks ----

  /** Evaluates the decks in order and stops at the first one that fails, as
      an exception ends the script: no later deck is processed. */
  method EvaluateDecks(decks: seq<(Deck.DeckHeader, seq<Deck.Entry>)>, dLith: real)
    returns (res: Result<seq<DeckReport>, (nat, ModelError)>)
    ensures res.Ok? <==> forall i :: 0 <= i < |decks| ==> EvaluateDeckSpec(decks[i].0, decks[i].1, dLith).Ok?
    ensures res.Ok? ==>
      |res.value| == |decks| &&
      forall i :: 0 <= i < |decks| ==> EvaluateDeckSpec(decks[i].0, decks[i].1, dLith) == Ok(res.value[i])
    ensures res.Err? ==>
      res.error.0 < |decks| &&
      EvaluateDeckSpec(decks[res.error.0].0, decks[res.error.0].1, dLith) == Err(res.error.1) &&
      forall i :: 0 <= i < res.error.0 ==> EvaluateDeckSpec(decks[i].0, decks[i].1, dLith).Ok?
  {
    var reports: seq<DeckReport> := [];
    var i := 0;
    while i < |decks|
      invariant 0 <= i <= |decks| && |reports| == i
      invariant forall k :: 0 <= k < i ==> EvaluateDeckSpec(decks[k].0, decks[k].1, dLith) == Ok(reports[k])
    {
      var r := EvaluateDeck(decks[i].0, decks[i].1, dLith);
      if r.Err? {
        return Err((i, r.error));
      }
      reports := reports + [r.value];
      i := i + 1;
    }
    res := Ok(reports);
  }
}
