/** Page sizes: the shift tables of kernel/src/generic/mapping.cc.

    The mapping database and the page tables number their page sizes differently; each number stands
    for a shift in a table.  When the database's table holds every shift of the hardware's and both
    ascend, the two conversions are exact and undo each other.
 */
module PageSizes {
  import opened Words

  ghost predicate Ascending(shifts: seq<nat>) {
    forall i, j :: 0 <= i < j < |shifts| ==> shifts[i] < shifts[j]
  }

  /** `s` is the first index whose shift is at least `x`. */
  ghost predicate FirstAtLeast(shifts: seq<nat>, x: nat, s: nat) {
    s < |shifts| && shifts[s] >= x && forall i :: 0 <= i < s ==> shifts[i] < x
  }

  /** The loop of `mdb_pgsize` and `hw_pgsize`. */
  method Convert(shifts: seq<nat>, x: nat) returns (s: nat)
    requires exists i :: 0 <= i < |shifts| && shifts[i] >= x
    ensures FirstAtLeast(shifts, x, s)
  {
    s := 0;
    while shifts[s] < x
      invariant s < |shifts| && forall i :: 0 <= i < s ==> shifts[i] < x
      decreases |shifts| - s
    {
      s := s + 1;
    }
  }

  /** Converting a hardware page size to the database's and back. */
  lemma {:induction false} ConversionRoundTrip(mdb: seq<nat>, hw: seq<nat>, h: nat, s: nat, back: nat)
    requires Ascending(mdb) && Ascending(hw) && h < |hw| && hw[h] in mdb
    requires FirstAtLeast(mdb, hw[h], s) && FirstAtLeast(hw, mdb[s], back)
    ensures mdb[s] == hw[h] && back == h
  {
    var k :| 0 <= k < |mdb| && mdb[k] == hw[h];
  }

  /** Larger hardware pages are larger database pages. */
  lemma {:induction false} ConversionKeepsOrder(mdb: seq<nat>, x: nat, y: nat, s: nat, t: nat)
    requires x <= y && FirstAtLeast(mdb, x, s) && FirstAtLeast(mdb, y, t)
    ensures s <= t
  {
  }

  /** Entries in the array of root nodes for page size `p`: `mdb_arraysize`. */
  function ArraySize(pgshifts: seq<nat>, p: nat): (n: nat)
    ensures n >= 1
  {
    if p + 1 < |pgshifts| && pgshifts[p] <= pgshifts[p + 1] then Pow2(pgshifts[p + 1] - pgshifts[p]) else 1
  }
}
