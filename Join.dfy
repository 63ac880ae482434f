/**
 * The result of the two nested-loop equi-joins of table.h, over the
 * (registry_position, join-column text) of each row of both tables, in
 * index order.
 */
module Join {

  /** One (registry_position, decoded text of the join column) per row, in index order. */
  type Keyed = seq<(int, string)>

  /**
   * The pairs one inner row contributes: [inner position, outer position]
   * for every outer row whose key text equals the inner key, in outer order.
   */
  function MatchRow(position: int, key: string, outer: Keyed): seq<(int, int)> {
    if outer == [] then []
    else (if outer[0].1 == key then [(position, outer[0].0)] else []) + MatchRow(position, key, outer[1..])
  }

  /** The pairs of every inner row, inner row by inner row (inner-major order). */
  function JoinAll(inner: Keyed, outer: Keyed): seq<(int, int)> {
    if inner == [] then [] else MatchRow(inner[0].0, inner[0].1, outer) + JoinAll(inner[1..], outer)
  }

  /**
   * One turn of the inner loop: with acc holding the pairs of the outer
   * rows before j, adding the pair of outer row j when its key matches
   * leaves the rows after j to complete the block.
   */
  lemma MatchRowStep(position: int, key: string, outer: Keyed, j: int, acc: seq<(int, int)>)
    requires 0 <= j < |outer|
    requires acc + MatchRow(position, key, outer[j..]) == MatchRow(position, key, outer)
    ensures (acc + (if outer[j].1 == key then [(position, outer[j].0)] else []))
          + MatchRow(position, key, outer[j + 1..]) == MatchRow(position, key, outer)
  {
    assert outer[j..][0] == outer[j] && outer[j..][1..] == outer[j + 1..];
    var here: seq<(int, int)> := if outer[j].1 == key then [(position, outer[j].0)] else [];
    var rest := MatchRow(position, key, outer[j + 1..]);
    assert acc + (here + rest) == (acc + here) + rest;
  }

  /**
   * One turn of the outer loop: with acc holding the pairs of the inner rows
   * before i, adding the block of inner row i leaves the rows after i to
   * complete the join.
   */
  lemma JoinAllStep(inner: Keyed, outer: Keyed, i: int, acc: seq<(int, int)>)
    requires 0 <= i < |inner|
    requires acc + JoinAll(inner[i..], outer) == JoinAll(inner, outer)
    ensures (acc + MatchRow(inner[i].0, inner[i].1, outer)) + JoinAll(inner[i + 1..], outer) == JoinAll(inner, outer)
  {
    assert inner[i..][0] == inner[i] && inner[i..][1..] == inner[i + 1..];
    var block := MatchRow(inner[i].0, inner[i].1, outer);
    var rest := JoinAll(inner[i + 1..], outer);
    assert acc + (block + rest) == (acc + block) + rest;
  }

  /** One inner row is paired exactly with the outer rows whose key equals its key. */
  lemma {:induction false} MatchRowMembers(position: int, key: string, outer: Keyed, p: (int, int))
    ensures p in MatchRow(position, key, outer) <==>
      p.0 == position && exists j :: 0 <= j < |outer| && outer[j] == (p.1, key)
  {
    if outer != [] {
      MatchRowMembers(position, key, outer[1..], p);
      if p.0 == position && exists j :: 0 <= j < |outer| && outer[j] == (p.1, key) {
        var j :| 0 <= j < |outer| && outer[j] == (p.1, key);
        if j > 0 {
          assert outer[1..][j - 1] == outer[j];
        }
      }
    }
  }

  /** One inner row yields at most one pair per outer row. */
  lemma {:induction false} MatchRowLength(position: int, key: string, outer: Keyed)
    ensures |MatchRow(position, key, outer)| <= |outer|
  {
    if outer != [] {
      MatchRowLength(position, key, outer[1..]);
    }
  }

  /**
   * The nested-loop join emits a pair exactly when some inner row and some
   * outer row at those positions carry equal key text.
   */
  lemma {:induction false} JoinAllMembers(inner: Keyed, outer: Keyed, p: (int, int))
    ensures p in JoinAll(inner, outer) <==>
      exists i, j :: 0 <= i < |inner| && 0 <= j < |outer| &&
        inner[i].0 == p.0 && outer[j].0 == p.1 && inner[i].1 == outer[j].1
  {
    if inner != [] {
      JoinAllMembers(inner[1..], outer, p);
      MatchRowMembers(inner[0].0, inner[0].1, outer, p);
      if exists i, j :: 0 <= i < |inner| && 0 <= j < |outer| &&
          inner[i].0 == p.0 && outer[j].0 == p.1 && inner[i].1 == outer[j].1 {
        var i, j :| 0 <= i < |inner| && 0 <= j < |outer| &&
          inner[i].0 == p.0 && outer[j].0 == p.1 && inner[i].1 == outer[j].1;
        if i == 0 {
          assert outer[j] == (p.1, inner[0].1);
        } else {
          assert inner[1..][i - 1] == inner[i];
        }
      }
      if p in MatchRow(inner[0].0, inner[0].1, outer) {
        var j :| 0 <= j < |outer| && outer[j] == (p.1, inner[0].1);
        assert inner[0].0 == p.0 && outer[j].0 == p.1 && inner[0].1 == outer[j].1;
      }
      if p in JoinAll(inner[1..], outer) {
        var i, j :| 0 <= i < |inner[1..]| && 0 <= j < |outer| &&
          inner[1..][i].0 == p.0 && outer[j].0 == p.1 && inner[1..][i].1 == outer[j].1;
        assert inner[i + 1] == inner[1..][i];
      }
    }
  }

  /** The join holds at most one pair per (inner row, outer row). */
  lemma {:induction false} JoinAllLength(inner: Keyed, outer: Keyed)
    ensures |JoinAll(inner, outer)| <= |inner| * |outer|
  {
    if inner != [] {
      MatchRowLength(inner[0].0, inner[0].1, outer);
      JoinAllLength(inner[1..], outer);
      assert |inner| * |outer| == |outer| + (|inner| - 1) * |outer|;
    }
  }

  /**
   * Inner-major order: the full join is the seeded join of inner row k
   * placed between the joins of the rows before and after it.
   */
  lemma {:induction false} JoinAllSplit(inner: Keyed, outer: Keyed, k: nat)
    requires k < |inner|
    ensures JoinAll(inner, outer)
         == JoinAll(inner[..k], outer) + MatchRow(inner[k].0, inner[k].1, outer) + JoinAll(inner[k + 1..], outer)
  {
    if k == 0 {
      assert inner[..0] == [];
      assert inner[1..] == inner[k + 1..];
    } else {
      JoinAllSplit(inner[1..], outer, k - 1);
      assert inner[1..][..k - 1] == inner[1..k];
      assert inner[1..][k - 1] == inner[k];
      assert inner[1..][k..] == inner[k + 1..];
      assert inner[..k][0] == inner[0];
      assert inner[..k][1..] == inner[1..k];
    }
  }

  /**
   * The worked example of table.h: Person (dre 9 at 111, dre 10 at 222)
   * joined with Worked (id_person 9 at 555, 10 at 666, 10 at 777).
   */
  lemma PersonWorkedExample()
    ensures JoinAll([(111, "9"), (222, "10")], [(555, "9"), (666, "10"), (777, "10")])
         == [(111, 555), (222, 666), (222, 777)]
    ensures MatchRow(222, "10", [(555, "9"), (666, "10"), (777, "10")])
         == [(222, 666), (222, 777)]
  {
    var outer: Keyed := [(555, "9"), (666, "10"), (777, "10")];
    assert outer[1..] == [(666, "10"), (777, "10")];
    assert outer[1..][1..] == [(777, "10")];
    assert MatchRow(111, "9", outer) == [(111, 555)];
    assert MatchRow(222, "10", outer) == [(222, 666), (222, 777)];
  }
}
