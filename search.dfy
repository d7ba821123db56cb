/** Linear "find the first entry that matches, then break" scans, as the page-table
    and TLB loops of the translation simulator perform them. */
module Search {

  /** Index of the first element of `s` that equals `x`, or `|s|` when there is none. */
  function FirstIndex(s: seq<int>, x: int): (k: nat)
    ensures k <= |s|
    ensures k < |s| ==> s[k] == x
    ensures forall j :: 0 <= j < k ==> s[j] != x
  {
    if s == [] then 0
    else if s[0] == x then 0
    else 1 + FirstIndex(s[1..], x)
  }

  /** Overwriting position `j` with `x` makes `j` the first match unless an
      earlier one already existed. */
  lemma FirstIndexAfterWrite(s: seq<int>, j: nat, x: int)
    requires j < |s|
    ensures FirstIndex(s[j := x], x) == if FirstIndex(s, x) < j then FirstIndex(s, x) else j
  {
    var k, k' := FirstIndex(s, x), FirstIndex(s[j := x], x);
    if k < j {
      assert s[j := x][k] == x;
    } else {
      assert s[j := x][j] == x;
    }
  }

  /** Overwriting a position with something other than `y` cannot move the first
      occurrence of `y` unless that position held it. */
  lemma FirstIndexUnaffected(s: seq<int>, j: nat, x: int, y: int)
    requires j < |s| && x != y && (s[j] == y ==> FirstIndex(s, y) < j)
    ensures FirstIndex(s[j := x], y) == FirstIndex(s, y)
  {
    var k, k' := FirstIndex(s, y), FirstIndex(s[j := x], y);
    if k < |s| {
      assert s[j := x][k] == y;
    }
    if k' < |s| {
      assert s[k'] == y;
    }
  }
}
