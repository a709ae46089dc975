/**
 * The collision-resolution pass of `dashboard_1` (matching_app.py): sort the result rows by
 * combined score, descending; mark every row whose `Best Match Address` already appeared
 * earlier in that order (`duplicated(keep='first')`); blank the marked rows.
 */
module Collisions {
  import opened Options
  import opened Scores

  /**
   * One row of the result table: the target row's own columns (`T`), the best-match columns,
   * the normalised combined score and the confidence label. A cell pandas sets to NaN is `None`.
   */
  datatype Scored<T> = Scored(
    target: T,
    bestAddress: Option<string>,
    bestName: Option<string>,
    mobile: Option<string>,
    score: Num,
    confidence: Tier)

  /**
   * `a` may come before `b` when sorting by score, descending. pandas puts NaN last whatever
   * the direction, so NaN is below every number.
   */
  predicate Above(a: Num, b: Num) {
    b.NaN? || (a.Val? && a.v >= b.v)
  }

  ghost predicate SortedDesc<T>(rows: seq<Scored<T>>) {
    forall i, j :: 0 <= i < j < |rows| ==> Above(rows[i].score, rows[j].score)
  }

  /**
   * Where `x` goes in a descending arrangement: in front of the first row it may come before,
   * or at the end.
   */
  function Position<T>(x: Scored<T>, rows: seq<Scored<T>>): (k: nat)
    ensures k <= |rows|
    ensures forall i :: 0 <= i < k ==> !Above(x.score, rows[i].score)
    ensures k < |rows| ==> Above(x.score, rows[k].score)
  {
    if |rows| == 0 then 0
    else if Above(x.score, rows[0].score) then 0
    else 1 + Position(x, rows[1..])
  }

  /** Whatever may come before `b` may come before what `b` may come before. */
  lemma AboveTransitive(a: Num, b: Num, c: Num)
    requires Above(a, b) && Above(b, c)
    ensures Above(a, c)
  {
  }

  /** Placing `x` at its position keeps a descending arrangement descending. */
  lemma {:induction false} SpliceSorted<T>(x: Scored<T>, rows: seq<Scored<T>>)
    requires SortedDesc(rows)
    ensures var k := Position(x, rows); SortedDesc(rows[..k] + [x] + rows[k..])
  {
    var k := Position(x, rows);
    var r := rows[..k] + [x] + rows[k..];
    forall i, j | 0 <= i < j < |r|
      ensures Above(r[i].score, r[j].score)
    {
      if j < k {
        assert r[i] == rows[i] && r[j] == rows[j];
      } else if j == k {
        assert r[i] == rows[i] && r[j] == x;
      } else if i < k {
        assert r[i] == rows[i] && r[j] == rows[j - 1];
      } else if i == k {
        assert r[i] == x && r[j] == rows[j - 1];
        if k < j - 1 {
          AboveTransitive(x.score, rows[k].score, rows[j - 1].score);
        }
      } else {
        assert r[i] == rows[i - 1] && r[j] == rows[j - 1];
      }
    }
  }

  /** `x` placed into a descending arrangement. */
  function Insert<T>(x: Scored<T>, rows: seq<Scored<T>>): (r: seq<Scored<T>>)
    requires SortedDesc(rows)
    ensures |r| == |rows| + 1
    ensures SortedDesc(r)
    ensures multiset(r) == multiset(rows) + multiset{x}
  {
    var k := Position(x, rows);
    SpliceSorted(x, rows);
    assert rows == rows[..k] + rows[k..];
    rows[..k] + [x] + rows[k..]
  }

  /**
   * `sort_values(by='Combined Score', ascending=False)`. pandas' default quicksort does not
   * fix the order of equal scores; insertion gives one admissible order. ClaimsAreUnique,
   * SurvivorHasBestScore and DuplicatesAreBlanked hold for every descending arrangement;
   * CollisionPassPermutes and PassOutput are stated for this insertion order only, and
   * among rows with equal scores the tie order decides which one keeps a shared address.
   */
  function SortDesc<T>(rows: seq<Scored<T>>): (r: seq<Scored<T>>)
    ensures |r| == |rows|
    ensures SortedDesc(r)
    ensures multiset(r) == multiset(rows)
  {
    if |rows| == 0 then []
    else
      assert rows == [rows[0]] + rows[1..];
      Insert(rows[0], SortDesc(rows[1..]))
  }

  /** What the pass writes into a duplicate row; every other column keeps its value. */
  function Blank<T>(row: Scored<T>): Scored<T> {
    row.(bestAddress := None, mobile := None, bestName := None, score := Val(0.0), confidence := NoMatch)
  }

  /**
   * The duplicate mask: row `i` is marked when its `Best Match Address` was already claimed,
   * either by a row before it or (for a pass resumed part way) by an address in `seen`.
   */
  ghost predicate IsDuplicate<T>(seen: set<Option<string>>, rows: seq<Scored<T>>, i: int)
    requires 0 <= i < |rows|
  {
    rows[i].bestAddress in seen || exists j :: 0 <= j < i && rows[j].bestAddress == rows[i].bestAddress
  }

  /** The pass over the sorted rows, carrying the set of addresses claimed so far. */
  function DropDuplicates<T>(rows: seq<Scored<T>>, seen: set<Option<string>>): (r: seq<Scored<T>>)
    ensures |r| == |rows|
    ensures forall i :: 0 <= i < |rows| ==> r[i] == if IsDuplicate(seen, rows, i) then Blank(rows[i]) else rows[i]
  {
    if |rows| == 0 then []
    else
      var x := rows[0];
      var seen' := if x.bestAddress in seen then seen else seen + {x.bestAddress};
      var rest := DropDuplicates(rows[1..], seen');
      var head := if x.bestAddress in seen then Blank(x) else x;
      assert forall i :: 1 <= i < |rows| ==> (IsDuplicate(seen, rows, i) <==> IsDuplicate(seen', rows[1..], i - 1)) by {
        forall i | 1 <= i < |rows|
          ensures IsDuplicate(seen, rows, i) <==> IsDuplicate(seen', rows[1..], i - 1)
        {
          if IsDuplicate(seen', rows[1..], i - 1) && rows[i].bestAddress !in seen' {
            var j :| 0 <= j < i - 1 && rows[1..][j].bestAddress == rows[1..][i - 1].bestAddress;
            assert rows[j + 1].bestAddress == rows[i].bestAddress;
          }
          if IsDuplicate(seen, rows, i) && rows[i].bestAddress !in seen {
            var j :| 0 <= j < i && rows[j].bestAddress == rows[i].bestAddress;
            if j > 0 {
              assert rows[1..][j - 1].bestAddress == rows[1..][i - 1].bestAddress;
            }
          }
        }
      }
      [head] + rest
  }

  /** The `duplicated` / `loc` part of the pass, on rows already in sorted order. */
  function ResolveCollisions<T>(sorted: seq<Scored<T>>): seq<Scored<T>> {
    DropDuplicates(sorted, {})
  }

  /** The whole pass: sort, then blank the duplicates. */
  function CollisionPass<T>(rows: seq<Scored<T>>): (r: seq<Scored<T>>)
    ensures |r| == |rows|
  {
    ResolveCollisions(SortDesc(rows))
  }

  /**
   * After the pass no two rows share a present `Best Match Address`. Rows sharing the
   * "none" sentinel are not exempt: the later one is blanked like any duplicate.
   */
  lemma {:induction false} ClaimsAreUnique<T>(sorted: seq<Scored<T>>)
    ensures var r := ResolveCollisions(sorted);
      forall i, j :: 0 <= i < j < |r| && r[i].bestAddress.Some? ==> r[i].bestAddress != r[j].bestAddress
  {
    var r := ResolveCollisions(sorted);
    forall i, j | 0 <= i < j < |r| && r[i].bestAddress.Some?
      ensures r[i].bestAddress != r[j].bestAddress
    {
      assert !IsDuplicate({}, sorted, i);
      if !IsDuplicate({}, sorted, j) {
        assert sorted[i].bestAddress != sorted[j].bestAddress;
      }
    }
  }

  /**
   * The row that keeps an address is the highest-scoring of all the rows claiming it, and the
   * pass changes nothing but the blanked columns of duplicate rows.
   */
  lemma {:induction false} SurvivorHasBestScore<T>(sorted: seq<Scored<T>>, i: int, j: int)
    requires SortedDesc(sorted) && 0 <= i < |sorted| && 0 <= j < |sorted|
    requires sorted[j].bestAddress == sorted[i].bestAddress
    requires ResolveCollisions(sorted)[i] == sorted[i] && sorted[i].bestAddress.Some?
    ensures Above(sorted[i].score, sorted[j].score)
  {
    if j < i {
      assert false;
    }
  }

  /**
   * A row is blanked exactly when an earlier row in the sorted order claims the same address;
   * blanking keeps the target's own columns.
   */
  lemma DuplicatesAreBlanked<T>(sorted: seq<Scored<T>>, i: int)
    requires 0 <= i < |sorted|
    ensures var r := ResolveCollisions(sorted);
      && r[i].target == sorted[i].target
      && ((exists j :: 0 <= j < i && sorted[j].bestAddress == sorted[i].bestAddress)
          ==> r[i] == Blank(sorted[i]) && r[i].confidence == NoMatch && r[i].score == Val(0.0)
              && r[i].bestAddress == None && r[i].mobile == None && r[i].bestName == None)
      && (!(exists j :: 0 <= j < i && sorted[j].bestAddress == sorted[i].bestAddress) ==> r[i] == sorted[i])
  {
  }

  /** The target rows of a table, in order. */
  function Targets<T>(rows: seq<Scored<T>>): (ts: seq<T>)
    ensures |ts| == |rows|
  {
    seq(|rows|, i requires 0 <= i < |rows| => rows[i].target)
  }

  /** The targets of two tables put together. */
  lemma TargetsAppend<T>(a: seq<Scored<T>>, b: seq<Scored<T>>)
    ensures Targets(a + b) == Targets(a) + Targets(b)
  {
  }

  /** The targets of a non-empty table are its first row's target and the rest's. */
  lemma TargetsHead<T>(rows: seq<Scored<T>>)
    requires |rows| > 0
    ensures multiset(Targets(rows)) == multiset{rows[0].target} + multiset(Targets(rows[1..]))
  {
    assert rows == [rows[0]] + rows[1..];
    TargetsAppend([rows[0]], rows[1..]);
    assert Targets([rows[0]]) == [rows[0].target];
  }

  /** Inserting a row adds exactly its target to the targets. */
  lemma InsertTargets<T>(x: Scored<T>, rows: seq<Scored<T>>)
    requires SortedDesc(rows)
    ensures multiset(Targets(Insert(x, rows))) == multiset(Targets(rows)) + multiset{x.target}
  {
    var k := Position(x, rows);
    var a, b := rows[..k], rows[k..];
    assert Insert(x, rows) == a + ([x] + b);
    TargetsAppend(a, [x] + b);
    TargetsAppend([x], b);
    assert Targets([x]) == [x.target];
    assert rows == a + b;
    TargetsAppend(a, b);
  }

  /** Sorting keeps the targets, each as often as before. */
  lemma {:induction false} SortTargets<T>(rows: seq<Scored<T>>)
    ensures multiset(Targets(SortDesc(rows))) == multiset(Targets(rows))
  {
    if |rows| > 0 {
      var rest := SortDesc(rows[1..]);
      SortTargets(rows[1..]);
      InsertTargets(rows[0], rest);
      TargetsHead(rows);
    }
  }

  /** Blanking keeps every row's own columns in place. */
  lemma ResolveKeepsTargets<T>(sorted: seq<Scored<T>>)
    ensures Targets(ResolveCollisions(sorted)) == Targets(sorted)
  {
    var r := ResolveCollisions(sorted);
    assert forall i :: 0 <= i < |r| ==> r[i].target == sorted[i].target;
  }

  /** Every row the pass outputs is an input row, as it was or blanked. */
  lemma PassRowsFromInput<T>(rows: seq<Scored<T>>)
    ensures var out := CollisionPass(rows);
      forall i :: 0 <= i < |out| ==> exists k :: 0 <= k < |rows| && (out[i] == rows[k] || out[i] == Blank(rows[k]))
  {
    var sorted := SortDesc(rows);
    var out := CollisionPass(rows);
    forall i | 0 <= i < |out|
      ensures exists k :: 0 <= k < |rows| && (out[i] == rows[k] || out[i] == Blank(rows[k]))
    {
      assert sorted[i] in multiset(rows);
      var k :| 0 <= k < |rows| && rows[k] == sorted[i];
      assert out[i] == rows[k] || out[i] == Blank(rows[k]);
    }
  }

  /** A row whose confidence label is the tier of its score, or a blanked duplicate. */
  predicate Consistent<T>(row: Scored<T>) {
    || (row.bestAddress.Some? && row.bestName.Some? && row.mobile.Some? && row.confidence == Confidence(row.score))
    || (row.bestAddress.None? && row.bestName.None? && row.mobile.None? && row.score == Val(0.0) && row.confidence == NoMatch)
  }

  /**
   * The pass on rows that are each consistent: every input row's own columns come out exactly
   * once, no present address twice, and every output row is an input row, as it was or blanked,
   * and so consistent.
   */
  lemma PassOutput<T>(rows: seq<Scored<T>>)
    requires forall k :: 0 <= k < |rows| ==> Consistent(rows[k])
    ensures var out := CollisionPass(rows);
      && multiset(Targets(out)) == multiset(Targets(rows))
      && (forall i, j :: 0 <= i < j < |out| && out[i].bestAddress.Some? ==> out[i].bestAddress != out[j].bestAddress)
      && (forall i :: 0 <= i < |out| ==>
            exists k :: 0 <= k < |rows| && (out[i] == rows[k] || out[i] == Blank(rows[k])))
      && (forall i :: 0 <= i < |out| ==> Consistent(out[i]))
  {
    var out := CollisionPass(rows);
    CollisionPassPermutes(rows);
    ClaimsAreUnique(SortDesc(rows));
    PassRowsFromInput(rows);
    forall i | 0 <= i < |out|
      ensures Consistent(out[i])
    {
      var k :| 0 <= k < |rows| && (out[i] == rows[k] || out[i] == Blank(rows[k]));
    }
  }

  /**
   * The pass outputs every input row exactly once (its own columns unchanged), arranged by
   * descending pre-pass score.
   */
  lemma CollisionPassPermutes<T>(rows: seq<Scored<T>>)
    ensures var sorted := SortDesc(rows);
      && SortedDesc(sorted)
      && multiset(Targets(CollisionPass(rows))) == multiset(Targets(rows))
      && forall i :: 0 <= i < |rows| ==> CollisionPass(rows)[i].target == sorted[i].target
  {
    var sorted := SortDesc(rows);
    SortTargets(rows);
    ResolveKeepsTargets(sorted);
  }
}
