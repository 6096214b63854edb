/** Primary keys of the two tables. Both `id` columns are SQLite
    `INTEGER PRIMARY KEY` columns without AUTOINCREMENT, so an inserted row
    that names no id receives one more than the largest id in the table, or
    1 when the table is empty. (Once the largest id is 2^63 - 1 SQLite picks
    a random unused id instead; ids here are unbounded, so that never
    happens.) */
module RowIds {

  /** The largest id present, 0 for an empty table. */
  function MaxId(ids: seq<nat>): (m: nat)
    ensures forall i :: 0 <= i < |ids| ==> ids[i] <= m
    ensures ids == [] ==> m == 0
    ensures ids != [] ==> m in ids
  {
    if ids == [] then 0
    else
      var rest := MaxId(ids[1..]);
      if ids[0] >= rest then ids[0] else rest
  }

  /** The id SQLite gives the next inserted row. */
  function NextId(ids: seq<nat>): (r: nat)
    ensures r > 0
    ensures forall i :: 0 <= i < |ids| ==> ids[i] < r
    ensures r !in ids
  {
    MaxId(ids) + 1
  }
}
