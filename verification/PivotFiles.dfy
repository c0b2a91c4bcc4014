/** A file of trained pivots as a run finds it. */
module PivotFiles {

  /** Absent, left torn by a kill and refused when loaded, or holding one trained set. */
  datatype PivotFile = Absent | Torn | Trained(id: nat)
}
