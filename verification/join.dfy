/** Byte strings written one after another, as a file is written block by block. */
module Join {
  import opened HexCodec

  /** The parts written in order. */
  function Concat(parts: seq<seq<Byte>>): (r: seq<Byte>)
  {
    if |parts| == 0 then [] else Concat(parts[..|parts| - 1]) + parts[|parts| - 1]
  }

  /** `cuts` lists where each part starts and where the last one ends. */
  predicate Cuts(parts: seq<seq<Byte>>, cuts: seq<nat>) {
    && |cuts| == |parts| + 1
    && cuts[0] == 0
    && forall i | 0 <= i < |parts| :: cuts[i + 1] == cuts[i] + |parts[i]|
  }

  /** Writing consecutive slices of a buffer writes that stretch of the buffer. */
  lemma {:induction false} JoinSlices(buf: seq<Byte>, parts: seq<seq<Byte>>, cuts: seq<nat>)
    requires Cuts(parts, cuts) && cuts[|parts|] <= |buf|
    requires forall i {:trigger parts[i]} | 0 <= i < |parts| :: cuts[i + 1] <= |buf| && parts[i] == buf[cuts[i]..cuts[i + 1]]
    ensures Concat(parts) == buf[..cuts[|parts|]]
    decreases |parts|
  {
    if |parts| > 0 {
      var n := |parts| - 1;
      var front := parts[..n];
      assert Cuts(front, cuts[..n + 1]);
      JoinCutsGrow(parts, cuts, n);
      JoinSlices(buf, front, cuts[..n + 1]);
      assert buf[..cuts[n + 1]] == buf[..cuts[n]] + buf[cuts[n]..cuts[n + 1]];
    }
  }

  /** Cut points never decrease. */
  lemma {:induction false} JoinCutsGrow(parts: seq<seq<Byte>>, cuts: seq<nat>, i: nat)
    requires Cuts(parts, cuts) && i <= |parts|
    ensures forall j | 0 <= j <= i :: cuts[j] <= cuts[i]
    decreases i
  {
    if i > 0 {
      JoinCutsGrow(parts, cuts, i - 1);
    }
  }

  /** Written out, the parts have the summed length. */
  lemma {:induction false} JoinLength(parts: seq<seq<Byte>>, cuts: seq<nat>)
    requires Cuts(parts, cuts)
    ensures |Concat(parts)| == cuts[|parts|]
    decreases |parts|
  {
    if |parts| > 0 {
      var n := |parts| - 1;
      assert Cuts(parts[..n], cuts[..n + 1]);
      JoinLength(parts[..n], cuts[..n + 1]);
      assert cuts[..n + 1][n] == cuts[n];
    }
  }

  /** Written out, part `i` sits between its cut points. */
  lemma {:induction false} JoinPart(parts: seq<seq<Byte>>, cuts: seq<nat>, i: nat)
    requires Cuts(parts, cuts) && i < |parts|
    ensures cuts[i + 1] <= |Concat(parts)| && Concat(parts)[cuts[i]..cuts[i + 1]] == parts[i]
    decreases |parts|
  {
    var n := |parts| - 1;
    var front := parts[..n];
    assert Cuts(front, cuts[..n + 1]);
    JoinLength(front, cuts[..n + 1]);
    assert cuts[..n + 1][n] == cuts[n];
    var r := Concat(parts);
    assert r == Concat(front) + parts[n];
    if i < n {
      JoinPart(front, cuts[..n + 1], i);
      JoinCutsGrow(parts, cuts, n);
      assert front[i] == parts[i];
      assert r[cuts[i]..cuts[i + 1]] == Concat(front)[cuts[i]..cuts[i + 1]];
    } else {
      assert r[cuts[i]..cuts[i + 1]] == parts[n];
    }
  }
}
