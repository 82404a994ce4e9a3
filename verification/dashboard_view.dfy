/** The pure helpers of the dashboard page (SDM_logic/dashboard.py): the
    code-to-description table and the sidebar's fill-level alerts. */
module DashboardView {
  import opened Values
  import opened Bins
  import ClassifierOutput

  /** The long description `get_type_description` gives each code. */
  function Description(b: BinCode): string {
    match b
    case BR => "Bio-degradable & Recyclable"
    case BNR => "Bio-degradable & Non-Recyclable"
    case NBR => "Non Bio-degradable & Recyclable"
    case NBNR => "Non Bio-degradable & Non-Recyclable"
  }

  /** `get_type_description`: a compartment code becomes its description;
      any other text is shown as it is. */
  function GetTypeDescription(typeCode: string): (r: string)
    ensures forall b :: typeCode == Code(b) ==> r == Description(b)
    ensures (forall b :: typeCode != Code(b)) ==> r == typeCode
  {
    CodesDistinct();
    if typeCode == Code(BR) then Description(BR)
    else if typeCode == Code(BNR) then Description(BNR)
    else if typeCode == Code(NBR) then Description(NBR)
    else if typeCode == Code(NBNR) then Description(NBNR)
    else typeCode
  }

  /** Which compartment a code or a description names: its length and first
      character tell the four apart. */
  function Named(n: int, c: char): Option<BinCode> {
    if c == 'B' && (n == 2 || n == 27) then Some(BR)
    else if c == 'B' && (n == 3 || n == 31) then Some(BNR)
    else if c == 'N' && (n == 3 || n == 31) then Some(NBR)
    else if c == 'N' && (n == 4 || n == 35) then Some(NBNR)
    else None
  }

  lemma NamedByCode(b: BinCode)
    ensures Named(|Code(b)|, Code(b)[0]) == Some(b)
    ensures Named(|Description(b)|, Description(b)[0]) == Some(b)
  {
  }

  /** Distinct compartments have distinct codes and distinct descriptions. */
  lemma CodesDistinct()
    ensures forall b1, b2 :: Code(b1) == Code(b2) ==> b1 == b2
    ensures forall b1, b2 :: Description(b1) == Description(b2) ==> b1 == b2
  {
    forall b1, b2
      ensures Code(b1) == Code(b2) ==> b1 == b2
      ensures Description(b1) == Description(b2) ==> b1 == b2
    {
      NamedByCode(b1);
      NamedByCode(b2);
    }
  }

  /** Each code is shown as its own description, and two codes never share
      one. */
  lemma DescriptionOfCode(b: BinCode)
    ensures GetTypeDescription(Code(b)) == Description(b)
    ensures forall c :: GetTypeDescription(Code(c)) == GetTypeDescription(Code(b)) ==> c == b
  {
    CodesDistinct();
  }

  /** The record stores the classifier's category label, not a code, so the
      waste type is shown without translation. */
  lemma CategoryShownVerbatim(b: BinCode, suffix: string)
    ensures GetTypeDescription(ClassifierOutput.CategoryLabel(b) + suffix) == ClassifierOutput.CategoryLabel(b) + suffix
  {
    var t := ClassifierOutput.CategoryLabel(b) + suffix;
    forall c: BinCode
      ensures t != Code(c)
    {
      assert |t| > |Code(c)|;
    }
  }

  // ---------------------------------------------------------------------
  // Fill-level alerts

  /** Fill levels in percent, as the dashboard reads them from the record. */
  datatype Levels = Levels(br: int, bnr: int, nbr: int, nbnr: int)

  function Level(l: Levels, b: BinCode): int {
    match b
    case BR => l.br
    case BNR => l.bnr
    case NBR => l.nbr
    case NBNR => l.nbnr
  }

  /** The short label the page gives each compartment. */
  function PanelLabel(b: BinCode): string {
    match b
    case BR => "Bio & Recyclable"
    case BNR => "Bio & Non-Recyclable"
    case NBR => "Non-Bio & Recyclable"
    case NBNR => "Non-Bio & Non-Recyclable"
  }

  /** A level strictly above this raises an alert. */
  const AlertLevel := 80

  /** One warning of the sidebar: `"<label> bin is <level>% full"`. */
  datatype Alert = Alert(bin: BinCode, title: string, level: int)

  function AlertsFrom(bins: seq<BinCode>, l: Levels): (r: seq<Alert>)
    ensures forall i :: 0 <= i < |r| ==> r[i].level == Level(l, r[i].bin) > AlertLevel
    ensures forall i :: 0 <= i < |r| ==> r[i].title == PanelLabel(r[i].bin)
    decreases |bins|
  {
    if |bins| == 0 then []
    else
      var rest := AlertsFrom(bins[1..], l);
      var b := bins[0];
      assert bins == [b] + bins[1..];
      if Level(l, b) > AlertLevel then [Alert(b, PanelLabel(b), Level(l, b))] + rest else rest
  }

  /** Every compartment above the alert level gets an alert; `i` is where. */
  lemma {:induction false} AlertsCover(bins: seq<BinCode>, l: Levels, j: nat) returns (i: nat)
    requires j < |bins| && Level(l, bins[j]) > AlertLevel
    ensures i < |AlertsFrom(bins, l)| && AlertsFrom(bins, l)[i].bin == bins[j]
    decreases |bins|
  {
    AlertsFromCons(bins, l);
    if j == 0 {
      i := 0;
    } else {
      var rest := AlertsFrom(bins[1..], l);
      assert bins[1..][j - 1] == bins[j];
      var k := AlertsCover(bins[1..], l, j - 1);
      if Level(l, bins[0]) > AlertLevel {
        i := k + 1;
      } else {
        i := k;
      }
    }
  }

  lemma AlertsFromCons(bins: seq<BinCode>, l: Levels)
    requires |bins| > 0
    ensures Level(l, bins[0]) > AlertLevel ==>
      AlertsFrom(bins, l) == [Alert(bins[0], PanelLabel(bins[0]), Level(l, bins[0]))] + AlertsFrom(bins[1..], l)
    ensures Level(l, bins[0]) <= AlertLevel ==> AlertsFrom(bins, l) == AlertsFrom(bins[1..], l)
  {
  }

  /** The sidebar's alert list: one alert per compartment above the alert
      level, in the order BR, BNR, NBR, NBNR. */
  function Alerts(l: Levels): (r: seq<Alert>)
    ensures forall i :: 0 <= i < |r| ==> r[i].level == Level(l, r[i].bin) > AlertLevel
    ensures forall i :: 0 <= i < |r| ==> r[i].title == PanelLabel(r[i].bin)
    ensures forall b :: Level(l, b) > AlertLevel <==> exists i :: 0 <= i < |r| && r[i].bin == b
  {
    forall b: BinCode | Level(l, b) > AlertLevel
      ensures exists i :: 0 <= i < |AlertsFrom(AllBins, l)| && AlertsFrom(AllBins, l)[i].bin == b
    {
      assert AllBins[Rank(b)] == b;
      var i := AlertsCover(AllBins, l, Rank(b));
    }
    AlertsFrom(AllBins, l)
  }

  predicate Ascending(bins: seq<BinCode>) {
    forall i, j :: 0 <= i < j < |bins| ==> Rank(bins[i]) < Rank(bins[j])
  }

  predicate AlertsAscending(r: seq<Alert>) {
    forall i, j :: 0 <= i < j < |r| ==> Rank(r[i].bin) < Rank(r[j].bin)
  }

  /** Alerts keep the order of the compartments they come from, so no
      compartment is warned about twice. */
  lemma {:induction false} AlertsOrdered(bins: seq<BinCode>, l: Levels)
    requires Ascending(bins)
    ensures AlertsAscending(AlertsFrom(bins, l))
    decreases |bins|
  {
    if |bins| > 0 {
      var rest := AlertsFrom(bins[1..], l);
      assert Ascending(bins[1..]) by {
        forall i, j | 0 <= i < j < |bins[1..]|
          ensures Rank(bins[1..][i]) < Rank(bins[1..][j])
        {
          assert bins[1..][i] == bins[i + 1] && bins[1..][j] == bins[j + 1];
        }
      }
      AlertsOrdered(bins[1..], l);
      forall i | 0 <= i < |rest|
        ensures Rank(bins[0]) < Rank(rest[i].bin)
      {
        AlertsWithin(bins[1..], l, i);
        FirstBelowRest(bins, rest[i].bin);
      }
      if Level(l, bins[0]) > AlertLevel {
        var r := [Alert(bins[0], PanelLabel(bins[0]), Level(l, bins[0]))] + rest;
        forall i, j | 0 <= i < j < |r|
          ensures Rank(r[i].bin) < Rank(r[j].bin)
        {
          assert r[j] == rest[j - 1];
          if i > 0 {
            assert r[i] == rest[i - 1];
          }
        }
      }
    }
  }

  /** Alerts only name compartments from the list scanned. */
  lemma {:induction false} AlertsWithin(bins: seq<BinCode>, l: Levels, i: nat)
    requires i < |AlertsFrom(bins, l)|
    ensures AlertsFrom(bins, l)[i].bin in bins
    decreases |bins|
  {
    AlertsFromCons(bins, l);
    var rest := AlertsFrom(bins[1..], l);
    if Level(l, bins[0]) > AlertLevel {
      if i > 0 {
        AlertsWithin(bins[1..], l, i - 1);
      }
    } else {
      AlertsWithin(bins[1..], l, i);
    }
  }

  lemma FirstBelowRest(bins: seq<BinCode>, x: BinCode)
    requires Ascending(bins) && |bins| > 0 && x in bins[1..]
    ensures Rank(bins[0]) < Rank(x)
  {
    var j :| 0 <= j < |bins[1..]| && bins[1..][j] == x;
    assert bins[j + 1] == x;
  }

  lemma AlertsInPanelOrder(l: Levels)
    ensures AlertsAscending(Alerts(l))
  {
    AllBinsAscending();
    AlertsOrdered(AllBins, l);
    assert Alerts(l) == AlertsFrom(AllBins, l);
  }

  lemma AllBinsAscending()
    ensures Ascending(AllBins)
  {
    forall i, j | 0 <= i < j < |AllBins|
      ensures Rank(AllBins[i]) < Rank(AllBins[j])
    {
      assert Rank(AllBins[i]) == i && Rank(AllBins[j]) == j;
    }
  }

  /** The "All bins are at safe levels" message shows exactly when no
      compartment is above the alert level. */
  predicate ShowsSafeMessage(l: Levels) {
    Alerts(l) == []
  }

  lemma SafeMessageWhenNoneFull(l: Levels)
    ensures ShowsSafeMessage(l) <==> forall b :: Level(l, b) <= AlertLevel
  {
    if !ShowsSafeMessage(l) {
      var a := Alerts(l)[0];
      assert Level(l, a.bin) > AlertLevel;
    }
  }
}
