/** The four compartments of the bin, shared by the sorting loop, the
    controller commands and the dashboard. */
module Bins {

  /** Bio-degradable/Recyclable, Bio-degradable/Non-recyclable,
      Non-bio-degradable/Recyclable, Non-bio-degradable/Non-recyclable. */
  datatype BinCode = BR | BNR | NBR | NBNR

  /** The short code: the compartment's wire verb and record key. */
  function Code(b: BinCode): string {
    match b
    case BR => "BR"
    case BNR => "BNR"
    case NBR => "NBR"
    case NBNR => "NBNR"
  }

  /** The fixed order in which the dashboard lists the compartments. */
  const AllBins: seq<BinCode> := [BR, BNR, NBR, NBNR]

  /** Position of a compartment in `AllBins`. */
  function Rank(b: BinCode): (r: nat)
    ensures r < |AllBins| && AllBins[r] == b
  {
    match b
    case BR => 0
    case BNR => 1
    case NBR => 2
    case NBNR => 3
  }
}
