// The cand.idx / cand.ids pair: one row per node, one stream of ids.

module CandidateFiles {

  /** Offset into the id stream, in ids, and count. */
  datatype Row = Row(off: nat, cnt: nat)

  datatype CandFile = CandFile(rows: seq<Row>, ids: seq<nat>)

  ghost predicate RowHolds(row: Row, ids: seq<nat>, list: seq<nat>) {
    row.cnt == |list| && row.off + row.cnt <= |ids| && ids[row.off..row.off + row.cnt] == list
  }

  /** Node u's row leads to its list. */
  ghost predicate Holds(f: CandFile, lists: seq<seq<nat>>) {
    |f.rows| == |lists| && forall u :: 0 <= u < |lists| ==> RowHolds(f.rows[u], f.ids, lists[u])
  }
}
