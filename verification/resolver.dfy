/**
 * The best-match resolver `combined_matching` of Functions.py: a linear scan of the lookup
 * rows that keeps the row with the highest address similarity (first seen wins, because the
 * test is a strict `>`), then scores the target name against that same row's last name.
 */
module Resolver {

  /** A similarity percentage, the range of `rapidfuzz.fuzz.ratio`. */
  type Percent = r: real | 0.0 <= r <= 100.0

  /**
   * `fuzz.ratio`, a foreign library function. The model never computes it: every operation
   * takes it as a parameter, and all that is assumed of it is its range.
   */
  type Ratio = (string, string) -> Percent

  /** A prepared row of the internal (lookup) dataset. */
  datatype LookupRow = LookupRow(address: string, fullName: string, lastName: string, mobile: string)

  /** The six values `combined_matching` returns. */
  datatype Match = Match(
    address: string,
    addressScore: real,
    name: string,
    nameScore: real,
    combined: real,
    mobile: string)

  /** The string the resolver returns for address, name and mobile when nothing matched. */
  const NoneText: string := "none"

  /** `fuzz.ratio(a, b) / 100`. */
  function Similarity(ratio: Ratio, a: string, b: string): (r: real)
    ensures 0.0 <= r <= 1.0
  {
    ratio(a, b) / 100.0
  }

  /** The variables the scan carries from one lookup row to the next. */
  datatype Best = Best(address: string, addressScore: real, name: string, nameScore: real, mobile: string)

  /** The variables before the first row. */
  const Initial: Best := Best(NoneText, 0.0, NoneText, 0.0, NoneText)

  /** What the scan records when `row` becomes the best row so far. */
  function Take(ratio: Ratio, targetAddress: string, targetName: string, row: LookupRow): Best {
    Best(row.address, Similarity(ratio, targetAddress, row.address), row.fullName,
         Similarity(ratio, targetName, row.lastName), row.mobile)
  }

  /** One iteration of the loop: the row replaces the best so far only if it scores strictly higher. */
  function Consider(ratio: Ratio, targetAddress: string, targetName: string, b: Best, row: LookupRow): Best {
    if Similarity(ratio, targetAddress, row.address) > b.addressScore then Take(ratio, targetAddress, targetName, row)
    else b
  }

  /**
   * The loop over `rows` in order. The recorded address score bounds every row's address
   * score, and both recorded scores stay in [0,1].
   */
  function Scan(ratio: Ratio, targetAddress: string, targetName: string, rows: seq<LookupRow>): (b: Best)
    ensures 0.0 <= b.addressScore <= 1.0 && 0.0 <= b.nameScore <= 1.0
    ensures forall j :: 0 <= j < |rows| ==> Similarity(ratio, targetAddress, rows[j].address) <= b.addressScore
  {
    if |rows| == 0 then Initial
    else
      var prefix := rows[..|rows| - 1];
      var b := Scan(ratio, targetAddress, targetName, prefix);
      assert forall j :: 0 <= j < |prefix| ==> rows[j] == prefix[j];
      Consider(ratio, targetAddress, targetName, b, rows[|rows| - 1])
  }

  /** `combined_matching(target_address, target_name, lookout_dataset)`. */
  function CombinedMatching(ratio: Ratio, targetAddress: string, targetName: string, rows: seq<LookupRow>): (m: Match)
    ensures m.combined == m.addressScore * m.nameScore
    ensures 0.0 <= m.combined <= 1.0
  {
    var b := Scan(ratio, targetAddress, targetName, rows);
    ProductInUnit(b.addressScore, b.nameScore);
    Match(b.address, b.addressScore, b.name, b.nameScore, b.addressScore * b.nameScore, b.mobile)
  }

  lemma ProductInUnit(x: real, y: real)
    requires 0.0 <= x <= 1.0 && 0.0 <= y <= 1.0
    ensures 0.0 <= x * y <= 1.0
  {
    assert 0.0 <= x * y by {
      assert 0.0 * y <= x * y;
    }
    assert x * y <= 1.0 * y by {
      assert (1.0 - x) * y >= 0.0;
    }
  }

  /** The "no match" result: `'none'` for the three strings, all three scores 0. */
  const NoMatch: Match := Match(NoneText, 0.0, NoneText, 0.0, 0.0, NoneText)

  /**
   * Row `k` is the first row attaining the highest address score, and that score is
   * positive: the row `combined_matching` is meant to return.
   */
  ghost predicate IsFirstBest(ratio: Ratio, targetAddress: string, rows: seq<LookupRow>, k: int) {
    && 0 <= k < |rows|
    && 0.0 < Similarity(ratio, targetAddress, rows[k].address)
    && (forall j :: 0 <= j < |rows| ==>
          Similarity(ratio, targetAddress, rows[j].address) <= Similarity(ratio, targetAddress, rows[k].address))
    && (forall j :: 0 <= j < k ==>
          Similarity(ratio, targetAddress, rows[j].address) < Similarity(ratio, targetAddress, rows[k].address))
  }

  /** No lookup row has a positive address score (this includes an empty lookup set). */
  ghost predicate NothingScores(ratio: Ratio, targetAddress: string, rows: seq<LookupRow>) {
    forall j :: 0 <= j < |rows| ==> Similarity(ratio, targetAddress, rows[j].address) == 0.0
  }

  /** The scan ends on the first best row, or on its initial values when there is none. */
  lemma {:induction false} ScanFindsFirstBest(ratio: Ratio, targetAddress: string, targetName: string, rows: seq<LookupRow>)
    ensures forall k :: IsFirstBest(ratio, targetAddress, rows, k) ==>
              Scan(ratio, targetAddress, targetName, rows) == Take(ratio, targetAddress, targetName, rows[k])
    ensures Scan(ratio, targetAddress, targetName, rows) != Initial ==>
              exists k :: IsFirstBest(ratio, targetAddress, rows, k)
  {
    if |rows| > 0 {
      var n := |rows| - 1;
      var prefix := rows[..n];
      var x := rows[n];
      ScanFindsFirstBest(ratio, targetAddress, targetName, prefix);
      var b := Scan(ratio, targetAddress, targetName, prefix);
      var sx := Similarity(ratio, targetAddress, x.address);
      assert forall j :: 0 <= j < n ==> rows[j] == prefix[j];
      // The score the prefix recorded is 0 or the score of the prefix's own first best row.
      assert b.addressScore == 0.0 || exists k :: 0 <= k < n && b.addressScore == Similarity(ratio, targetAddress, rows[k].address) by {
        if b != Initial {
          var k :| IsFirstBest(ratio, targetAddress, prefix, k);
          assert b == Take(ratio, targetAddress, targetName, prefix[k]);
        }
      }
      forall k | IsFirstBest(ratio, targetAddress, rows, k)
        ensures Scan(ratio, targetAddress, targetName, rows) == Take(ratio, targetAddress, targetName, rows[k])
      {
        if k < n {
          assert IsFirstBest(ratio, targetAddress, prefix, k);
          assert b == Take(ratio, targetAddress, targetName, prefix[k]);
        } else {
          assert sx > b.addressScore;
        }
      }
      if Scan(ratio, targetAddress, targetName, rows) != Initial {
        if sx > b.addressScore {
          assert IsFirstBest(ratio, targetAddress, rows, n);
        } else {
          var k :| IsFirstBest(ratio, targetAddress, prefix, k);
          assert b == Take(ratio, targetAddress, targetName, prefix[k]);
          assert IsFirstBest(ratio, targetAddress, rows, k);
        }
      }
    }
  }

  /**
   * When some lookup address scores above 0, the resolver returns the first row attaining the
   * maximum address score: its address, full name and mobile, the name score of the target
   * name against that same row's last name, and the product of the two scores.
   */
  lemma ResolverPicksFirstBest(ratio: Ratio, targetAddress: string, targetName: string, rows: seq<LookupRow>, k: int)
    requires IsFirstBest(ratio, targetAddress, rows, k)
    ensures var m := CombinedMatching(ratio, targetAddress, targetName, rows);
      && m.address == rows[k].address
      && m.addressScore == Similarity(ratio, targetAddress, rows[k].address)
      && m.name == rows[k].fullName
      && m.nameScore == Similarity(ratio, targetName, rows[k].lastName)
      && m.mobile == rows[k].mobile
      && m.combined == m.addressScore * m.nameScore
  {
    ScanFindsFirstBest(ratio, targetAddress, targetName, rows);
  }

  /** The resolver returns the "no match" result exactly when no lookup address scores above 0. */
  lemma ResolverNoMatch(ratio: Ratio, targetAddress: string, targetName: string, rows: seq<LookupRow>)
    ensures CombinedMatching(ratio, targetAddress, targetName, rows) == NoMatch
        <==> NothingScores(ratio, targetAddress, rows)
  {
    ScanFindsFirstBest(ratio, targetAddress, targetName, rows);
    var b := Scan(ratio, targetAddress, targetName, rows);
    if NothingScores(ratio, targetAddress, rows) {
      assert !exists k :: IsFirstBest(ratio, targetAddress, rows, k);
    }
    if b == Initial {
      assert NothingScores(ratio, targetAddress, rows);
    }
  }

  /** Exactly one of the two outcomes applies: some row is the first best one, or nothing scores. */
  lemma FirstBestOrNothing(ratio: Ratio, targetAddress: string, targetName: string, rows: seq<LookupRow>)
    ensures NothingScores(ratio, targetAddress, rows) <==> !exists k :: IsFirstBest(ratio, targetAddress, rows, k)
  {
    ScanFindsFirstBest(ratio, targetAddress, targetName, rows);
    ResolverNoMatch(ratio, targetAddress, targetName, rows);
  }

  /**
   * Whatever the resolver returns is the "no match" result or comes from a single lookup row:
   * its address, full name and mobile are that row's.
   */
  lemma ResolverResultFromRow(ratio: Ratio, targetAddress: string, targetName: string, rows: seq<LookupRow>)
    ensures var m := CombinedMatching(ratio, targetAddress, targetName, rows);
      || m == NoMatch
      || exists k :: 0 <= k < |rows| && m.address == rows[k].address && m.name == rows[k].fullName && m.mobile == rows[k].mobile
  {
    FirstBestOrNothing(ratio, targetAddress, targetName, rows);
    ResolverNoMatch(ratio, targetAddress, targetName, rows);
    if !NothingScores(ratio, targetAddress, rows) {
      var k :| IsFirstBest(ratio, targetAddress, rows, k);
      ResolverPicksFirstBest(ratio, targetAddress, targetName, rows, k);
    }
  }
}
