/**
 * The address-matching workflow `dashboard_1` of matching_app.py with its I/O removed:
 * the column transforms that prepare both datasets, one resolver call per target row, the
 * normalisation and confidence columns, and the collision pass.
 */
module Dashboard {
  import opened Options
  import opened Text
  import opened Address
  import opened Resolver
  import opened Scores
  import opened Collisions

  /** A row of the internal dataset as uploaded. */
  datatype InternalRecord = InternalRecord(address: string, firstName: string, lastName: string, mobile: string)

  /** A row of the target dataset, before and after preparation (the prepared row rewrites two columns). */
  datatype TargetRecord = TargetRecord(address: string, suburb: string, ownerName: string)

  /** `.str.replace(',', '')`. */
  function RemoveCommas(s: string): string {
    Replace(Exact, s, ",", "")
  }

  /** `.str.lower().str.replace(',', '').str.strip()`, the normalisation of both address columns. */
  function CleanAddress(s: string): string {
    Strip(RemoveCommas(Lower(s)))
  }

  /** `f"{first} {last}".strip().lower()`. */
  function FullName(first: string, last: string): string {
    Lower(Strip(first + " " + last))
  }

  /**
   * An internal row as the resolver sees it: the address lowered, cleaned and standardised,
   * the full name built; `Last Name` and `Mobile` are left as uploaded.
   */
  function PrepareInternal(r: InternalRecord): LookupRow {
    LookupRow(StandardizeAddress(CleanAddress(Lower(r.address))), FullName(r.firstName, r.lastName), r.lastName, r.mobile)
  }

  /**
   * A target row: the lowered address joined to the suburb with `", "`, cleaned and
   * standardised; `Owner's Name` lowered and stripped.
   */
  function PrepareTarget(t: TargetRecord): TargetRecord {
    t.(address := StandardizeAddress(CleanAddress(Lower(t.address) + ", " + t.suburb)),
       ownerName := Strip(Lower(t.ownerName)))
  }

  /** Cleaning introduces no character: whatever is in the cleaned string was in the input. */
  lemma CleanKeepsChars(l: string, c: char)
    ensures c in Strip(RemoveCommas(l)) ==> c in l
  {
    if c !in l {
      assert l[0..] == l;
      ReplaceFromAvoids(Exact, l, ",", "", 0, c);
      StripAvoids(RemoveCommas(l), c);
    }
  }

  /** A cleaned address is lower case, has no comma and no surrounding whitespace. */
  lemma CleanAddressShape(s: string)
    ensures var r := CleanAddress(s);
      && ',' !in r && IsLower(r) && (r == [] || (!IsSpace(r[0]) && !IsSpace(r[|r| - 1])))
  {
    var l := Lower(s);
    var n := RemoveCommas(l);
    var r := Strip(n);
    RemoveCharLeavesNone(l, ',', 0);
    StripAvoids(n, ',');
    assert IsLower(l);
    forall i | 0 <= i < |r|
      ensures !('A' <= r[i] <= 'Z')
    {
      CleanKeepsChars(l, r[i]);
    }
  }

  /** Removing commas from a one-character string. */
  lemma RemoveCommasChar(c: char)
    ensures RemoveCommas([c]) == if c == ',' then [] else [c]
  {
    assert [c][0..1] == [c];
    assert ReplaceFrom(Exact, [c], ",", "", 1) == [];
  }

  /** Removing commas distributes over concatenation. */
  lemma RemoveCommasAppend(a: string, b: string)
    ensures RemoveCommas(a + b) == RemoveCommas(a) + RemoveCommas(b)
  {
    if |a| == 0 {
      assert a + b == b;
    } else {
      RemoveCharAppend(a, b, ',', 0);
    }
  }

  /**
   * The comma that joins address and suburb disappears with the other commas, so the address
   * the target rows are matched on is the comma-free address and comma-free suburb separated
   * by one space, lowered and stripped as a whole.
   */
  lemma TargetAddressJoin(address: string, suburb: string)
    ensures CleanAddress(Lower(address) + ", " + suburb)
         == Strip(RemoveCommas(Lower(address)) + " " + RemoveCommas(Lower(suburb)))
  {
    var a, b := Lower(address), Lower(suburb);
    LowerAppend(Lower(address) + ", ", suburb);
    LowerAppend(Lower(address), ", ");
    LowerIdempotent(address);
    assert Lower(", ") == ", ";
    assert Lower(Lower(address) + ", " + suburb) == a + [','] + [' '] + b;
    RemoveCommasAppend(a + [','] + [' '], b);
    RemoveCommasAppend(a + [','], [' ']);
    RemoveCommasAppend(a, [',']);
    RemoveCommasChar(',');
    RemoveCommasChar(' ');
    assert RemoveCommas(a) + [] == RemoveCommas(a);
  }

  /** Both prepared address columns are free of commas. */
  lemma PreparedAddressesHaveNoComma(r: InternalRecord, t: TargetRecord)
    ensures ',' !in PrepareInternal(r).address
    ensures ',' !in PrepareTarget(t).address
  {
    CleanAddressShape(Lower(r.address));
    StandardizeNoComma(CleanAddress(Lower(r.address)));
    CleanAddressShape(Lower(t.address) + ", " + t.suburb);
    StandardizeNoComma(CleanAddress(Lower(t.address) + ", " + t.suburb));
  }

  /** The full name is lower case and has no surrounding whitespace. */
  lemma FullNameShape(first: string, last: string)
    ensures var r := FullName(first, last);
      && IsLower(r) && (r == [] || (!IsSpace(r[0]) && !IsSpace(r[|r| - 1])))
  {
    var s := Strip(first + " " + last);
    if s != [] {
      LowerCharKeepsClass(s[0]);
      LowerCharKeepsClass(s[|s| - 1]);
    }
  }

  /** A prepared `Owner's Name` is lower case and has no surrounding whitespace. */
  lemma OwnerNameShape(t: TargetRecord)
    ensures var o := PrepareTarget(t).ownerName;
      && IsLower(o) && (o == [] || (!IsSpace(o[0]) && !IsSpace(o[|o| - 1])))
  {
    LowerIsLower(t.ownerName);
    StripKeepsLower(Lower(t.ownerName));
  }

  /**
   * For non-empty names without surrounding whitespace of their own, the full name is exactly
   * the first name, one space and the last name, lowered.
   */
  lemma FullNameOfTrimmedNames(first: string, last: string)
    requires first != [] && !IsSpace(first[0]) && !IsSpace(first[|first| - 1])
    requires last != [] && !IsSpace(last[|last| - 1])
    ensures FullName(first, last) == Lower(first) + " " + Lower(last)
  {
    var joined := first + " " + last;
    assert joined[0] == first[0];
    assert joined[|joined| - 1] == last[|last| - 1];
    StripOfStripped(joined);
    assert FullName(first, last) == Lower(joined);
    LowerAppend(first + " ", last);
    LowerAppend(first, " ");
    assert Lower([' ']) == [' '] by {
      assert Lower([' '])[0] == LowerChar(' ') == ' ';
    }
  }

  /** The resolver run once per prepared target row (the per-row step of the matching). */
  function MatchAll(ratio: Ratio, targets: seq<TargetRecord>, lookup: seq<LookupRow>): (ms: seq<Match>)
    ensures |ms| == |targets|
    ensures forall i :: 0 <= i < |ms| ==> 0.0 <= ms[i].combined <= 1.0 && ms[i].combined == ms[i].addressScore * ms[i].nameScore
  {
    seq(|targets|, i requires 0 <= i < |targets| => CombinedMatching(ratio, targets[i].address, targets[i].ownerName, lookup))
  }

  /** The `Combined Score` column before normalisation. */
  function CombinedColumn(ms: seq<Match>): (xs: seq<real>)
    ensures |xs| == |ms|
  {
    seq(|ms|, i requires 0 <= i < |ms| => ms[i].combined)
  }

  /**
   * The match columns copied into the target table, the score column normalised and the
   * confidence column derived from the normalised score.
   */
  function ScoreRows(targets: seq<TargetRecord>, ms: seq<Match>): (rows: seq<Scored<TargetRecord>>)
    requires |ms| == |targets|
    ensures |rows| == |targets|
  {
    var scores := Normalize(CombinedColumn(ms));
    seq(|ms|, i requires 0 <= i < |ms| =>
      Scored(targets[i], Some(ms[i].address), Some(ms[i].name), Some(ms[i].mobile), scores[i], Confidence(scores[i])))
  }

  /** The prepared internal dataset. */
  function PrepareLookup(internal: seq<InternalRecord>): (lookup: seq<LookupRow>)
    ensures |lookup| == |internal|
  {
    seq(|internal|, i requires 0 <= i < |internal| => PrepareInternal(internal[i]))
  }

  /** The prepared target dataset. */
  function PrepareTargets(targets: seq<TargetRecord>): (prepared: seq<TargetRecord>)
    ensures |prepared| == |targets|
  {
    seq(|targets|, i requires 0 <= i < |targets| => PrepareTarget(targets[i]))
  }

  /** Matching, scoring and the collision pass on prepared datasets. */
  function MatchPrepared(ratio: Ratio, prepared: seq<TargetRecord>, lookup: seq<LookupRow>): (out: seq<Scored<TargetRecord>>)
    ensures |out| == |prepared|
  {
    CollisionPass(ScoreRows(prepared, MatchAll(ratio, prepared, lookup)))
  }

  /** The whole of `dashboard_1` between the uploads and the display. */
  function MatchAddresses(ratio: Ratio, internal: seq<InternalRecord>, targets: seq<TargetRecord>): (out: seq<Scored<TargetRecord>>)
    ensures |out| == |targets|
  {
    MatchPrepared(ratio, PrepareTargets(targets), PrepareLookup(internal))
  }

  /**
   * Before the collision pass row `k` is target `k` with the address, name and mobile of match
   * `k`, the `k`-th normalised combined score and that score's tier.
   */
  lemma ScoreRowsConsistent(targets: seq<TargetRecord>, ms: seq<Match>)
    requires |ms| == |targets|
    ensures Targets(ScoreRows(targets, ms)) == targets
    ensures forall k :: 0 <= k < |targets| ==>
      var row := ScoreRows(targets, ms)[k];
      && row.bestAddress == Some(ms[k].address)
      && row.bestName == Some(ms[k].name)
      && row.mobile == Some(ms[k].mobile)
      && row.score == Normalize(CombinedColumn(ms))[k]
      && row.confidence == Confidence(row.score)
    ensures forall k :: 0 <= k < |targets| ==> Consistent(ScoreRows(targets, ms)[k])
  {
  }

  /**
   * The output holds every prepared target row exactly once, no present `Best Match Address`
   * twice, and every row is either labelled with its own score's tier or blanked. Each output
   * row is the scored row of some target, as it was or blanked.
   */
  lemma MatchPreparedOutput(ratio: Ratio, prepared: seq<TargetRecord>, lookup: seq<LookupRow>)
    ensures var out := MatchPrepared(ratio, prepared, lookup);
      var scored := ScoreRows(prepared, MatchAll(ratio, prepared, lookup));
      && |out| == |prepared|
      && (forall i :: 0 <= i < |out| ==>
            exists k :: 0 <= k < |scored| && (out[i] == scored[k] || out[i] == Blank(scored[k])))
      && multiset(Targets(out)) == multiset(prepared)
      && (forall i, j :: 0 <= i < j < |out| && out[i].bestAddress.Some? ==> out[i].bestAddress != out[j].bestAddress)
      && (forall i :: 0 <= i < |out| ==> Consistent(out[i]))
  {
    var ms := MatchAll(ratio, prepared, lookup);
    ScoreRowsConsistent(prepared, ms);
    PassOutput(ScoreRows(prepared, ms));
  }

  /**
   * The same for the whole workflow on uploaded rows: every prepared target once, no present
   * `Best Match Address` twice, every row tier-consistent, and each output row the scored row
   * of some prepared target, as it was or blanked.
   */
  lemma MatchAddressesOutput(ratio: Ratio, internal: seq<InternalRecord>, targets: seq<TargetRecord>)
    ensures var out := MatchAddresses(ratio, internal, targets);
      var prepared := PrepareTargets(targets);
      var scored := ScoreRows(prepared, MatchAll(ratio, prepared, PrepareLookup(internal)));
      && |out| == |targets|
      && (forall i :: 0 <= i < |out| ==>
            exists k :: 0 <= k < |scored| && (out[i] == scored[k] || out[i] == Blank(scored[k])))
      && multiset(Targets(out)) == multiset(PrepareTargets(targets))
      && (forall i, j :: 0 <= i < j < |out| && out[i].bestAddress.Some? ==> out[i].bestAddress != out[j].bestAddress)
      && (forall i :: 0 <= i < |out| ==> Consistent(out[i]))
  {
    MatchPreparedOutput(ratio, PrepareTargets(targets), PrepareLookup(internal));
  }
}
