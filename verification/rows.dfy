/** One row of the flat genealogy edge table: an installation event linking a
    parent component instance to a child component instance. */
module Rows {

  datatype Row = Row(
    parentTraceId: string,
    parentDesc: string,
    parentPn: string,
    parentSn: string,
    childTraceId: string,
    childDesc: string,
    childPn: string,
    childSn: string,
    woId: string,
    testSn: string,
    status: string)

  /** A degenerate row whose parent part number equals its child part number. */
  predicate IsSelfLoop(r: Row) {
    r.parentPn == r.childPn
  }

  predicate IsProper(r: Row) {
    !IsSelfLoop(r)
  }
}
