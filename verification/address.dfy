/**
 * The address standardiser of Functions.py: an ordered table of whole-word,
 * case-insensitive abbreviation rewrites, applied one rule after another.
 */
module Address {
  import opened Text

  /** Replacement text. No entry of the table contains a comma, which the type records. */
  type Expansion = s: string | ',' !in s witness ""

  /** One entry of the table: `re.sub(r'\b' + pattern + r'\b', replacement, _, flags=re.IGNORECASE)`. */
  datatype Rule = Rule(pattern: string, replacement: Expansion)

  /** Street types (Functions.py:21-35). */
  const StreetTypesA: seq<Rule> :=
    [
      Rule("St", "street"),
      Rule("Rd", "road"),
      Rule("Ave", "avenue"),
      Rule("Pl", "place"),
      Rule("Dr", "drive"),
      Rule("Ln", "lane"),
      Rule("Blvd", "boulevard"),
      Rule("Ct", "court"),
      Rule("Ally", "alley"),
      Rule("Alwy", "alleyway"),
      Rule("Arc", "arcade"),
      Rule("Basn", "basin"),
      Rule("Bch", "beach"),
      Rule("Bend", "bend"),
      Rule("Blk", "block")
    ]

  /** Street types (Functions.py:36-50). */
  const StreetTypesB: seq<Rule> :=
    [
      Rule("Bvd", "boulevard"),
      Rule("Bdge", "bridge"),
      Rule("Bdwy", "broadway"),
      Rule("Bypa", "bypass"),
      Rule("Bywy", "byway"),
      Rule("Caus", "causeway"),
      Rule("Cn", "central"),
      Rule("Ctr", "centre"),
      Rule("Cnwy", "centreway"),
      Rule("Ch", "chase"),
      Rule("Cir", "circle"),
      Rule("Cct", "circuit"),
      Rule("Cl", "close"),
      Rule("Con", "concourse"),
      Rule("Cnr", "corner")
    ]

  /** Postal delivery types (Functions.py:52-55). */
  const PostalTypesA: seq<Rule> :=
    [
      Rule("care po", "care Of Post Office"),
      Rule("cma", "community Mail Agent"),
      Rule("cmb", "community Mail Bag"),
      Rule("gpo box", "general Post Office Box")
    ]

  /** Postal delivery types (Functions.py:56-59). */
  const PostalTypesB: seq<Rule> :=
    [
      Rule("locked bag", "locked Mail Bag Service"),
      Rule("ms", "mail Service"),
      Rule("po box", "post Office Box"),
      Rule("private bag", "private mail bag service")
    ]

  /** Postal delivery types (Functions.py:60-63). */
  const PostalTypesC: seq<Rule> :=
    [
      Rule("rsd", "roadside delivery"),
      Rule("rmb", "roadside mail bag"),
      Rule("rms", "roadside mail service"),
      Rule("cpa", "community postal agent")
    ]

  /** Street types after the postal block (Functions.py:64-84). */
  const StreetTypesC: seq<Rule> :=
    [
      Rule("strp", "strip"),
      Rule("sbwy", "subway"),
      Rule("thor", "thoroughfare"),
      Rule("tlwy", "tollway"),
      Rule("twrs", "towers"),
      Rule("trk", "track"),
      Rule("trlr", "trailer"),
      Rule("tri", "triangle"),
      Rule("tkwy", "trunkway"),
      Rule("turn", "turn"),
      Rule("upas", "underpass"),
      Rule("up", "upper"),
      Rule("vale", "vale"),
      Rule("vdct", "viaduct"),
      Rule("vlls", "villas"),
      Rule("vsta", "vista"),
      Rule("walk", "walk"),
      Rule("wkyw", "walkway"),
      Rule("w", "west"),
      Rule("whrf", "wharf"),
      Rule("wynd", "wynd")
    ]

  /** Street types after the postal block (Functions.py:85-105). */
  const StreetTypesD: seq<Rule> :=
    [
      Rule("yard", "yard"),
      Rule("rch", "reach"),
      Rule("res", "reserve"),
      Rule("rtt", "retreat"),
      Rule("rgwy", "ridgeway"),
      Rule("rowy", "right of Way"),
      Rule("rvr", "river"),
      Rule("rvwy", "riverway"),
      Rule("rvra", "riviera"),
      Rule("rds", "roads"),
      Rule("rdwy", "roadway"),
      Rule("rnde", "ronde"),
      Rule("rsbl", "rosebowl"),
      Rule("rty", "rotary"),
      Rule("rnd", "round"),
      Rule("rte", "route"),
      Rule("run", "run"),
      Rule("swy", "service way"),
      Rule("sdng", "siding"),
      Rule("slpe", "slope"),
      Rule("snd", "sound")
    ]

  /** The abbreviation table, in the dictionary's insertion order, which is the order it is applied in. */
  const Table: seq<Rule> :=
    StreetTypesA + StreetTypesB + PostalTypesA + PostalTypesB + PostalTypesC + StreetTypesC + StreetTypesD

  /** The rule's pattern does not occur as a whole word (in any case) anywhere in `s`. */
  predicate Absent(s: string, rule: Rule) {
    NoMatchFrom(WholeWordIgnoreCase, s, rule.pattern, 0)
  }

  /** One `re.sub` call of the loop. */
  function Rewrite(s: string, rule: Rule): string {
    Replace(WholeWordIgnoreCase, s, rule.pattern, rule.replacement)
  }

  /** The loop of the standardiser: each rule rewrites the output of all rules before it. */
  function ApplyRules(s: string, rules: seq<Rule>): string
    decreases |rules|
  {
    if |rules| == 0 then s else ApplyRules(Rewrite(s, rules[0]), rules[1..])
  }

  /** A rule whose pattern is not a whole word of `s` (in any case) leaves `s` unchanged. */
  lemma RewriteAbsent(s: string, rule: Rule)
    requires Absent(s, rule)
    ensures Rewrite(s, rule) == s
  {
    ReplaceFromUnchanged(WholeWordIgnoreCase, s, rule.pattern, rule.replacement, 0);
  }

  /** An address in which no rule's pattern is a whole word is returned unchanged. */
  lemma {:induction false} ApplyRulesAbsent(s: string, rules: seq<Rule>)
    requires forall i :: 0 <= i < |rules| ==> Absent(s, rules[i])
    decreases |rules|
    ensures ApplyRules(s, rules) == s
  {
    if |rules| > 0 {
      RewriteAbsent(s, rules[0]);
      ApplyRulesAbsent(s, rules[1..]);
    }
  }

  /** No rule introduces a comma, so a comma-free address stays comma-free. */
  lemma {:induction false} ApplyRulesNoComma(s: string, rules: seq<Rule>)
    requires ',' !in s
    decreases |rules|
    ensures ',' !in ApplyRules(s, rules)
  {
    if |rules| > 0 {
      ReplaceFromAvoids(WholeWordIgnoreCase, s, rules[0].pattern, rules[0].replacement, 0, ',');
      ApplyRulesNoComma(Rewrite(s, rules[0]), rules[1..]);
    }
  }

  /** `standardize_address`. */
  function StandardizeAddress(address: string): string {
    ApplyRules(address, Table)
  }

  /** Whole-word only: an address containing none of the table's patterns as a whole word is returned unchanged. */
  lemma StandardizeUnchanged(address: string)
    requires forall i :: 0 <= i < |Table| ==> Absent(address, Table[i])
    ensures StandardizeAddress(address) == address
  {
    ApplyRulesAbsent(address, Table);
  }

  /** Standardising never introduces a comma. */
  lemma StandardizeNoComma(address: string)
    requires ',' !in address
    ensures ',' !in StandardizeAddress(address)
  {
    ApplyRulesNoComma(address, Table);
  }

  /** Rules run in table order: running a table is running its first part, then its second on that output. */
  lemma {:induction false} ApplyRulesAppend(s: string, first: seq<Rule>, second: seq<Rule>)
    decreases |first|
    ensures ApplyRules(s, first + second) == ApplyRules(ApplyRules(s, first), second)
  {
    if |first| == 0 {
      assert first + second == second;
    } else {
      assert (first + second)[1..] == first[1..] + second;
      ApplyRulesAppend(Rewrite(s, first[0]), first[1..], second);
    }
  }

  /** Rule `k` of the table is applied to the output of rules `0..k-1`. */
  lemma StandardizeStep(s: string, k: nat)
    requires k < |Table|
    ensures ApplyRules(s, Table[..k + 1]) == Rewrite(ApplyRules(s, Table[..k]), Table[k])
  {
    ApplyRulesAppend(s, Table[..k], [Table[k]]);
    assert Table[..k] + [Table[k]] == Table[..k + 1];
    var t := ApplyRules(s, Table[..k]);
    assert ApplyRules(t, [Table[k]]) == ApplyRules(Rewrite(t, Table[k]), []);
  }

  /** Addresses that differ only in letter case standardise to results that differ only in letter case. */
  lemma {:induction false} ApplyRulesIgnoresCase(s1: string, s2: string, rules: seq<Rule>)
    requires Lower(s1) == Lower(s2)
    decreases |rules|
    ensures Lower(ApplyRules(s1, rules)) == Lower(ApplyRules(s2, rules))
  {
    if |rules| > 0 {
      ReplaceFromIgnoresCase(s1, s2, rules[0].pattern, rules[0].replacement, 0);
      ApplyRulesIgnoresCase(Rewrite(s1, rules[0]), Rewrite(s2, rules[0]), rules[1..]);
    }
  }

  lemma StandardizeIgnoresCase(s1: string, s2: string)
    requires Lower(s1) == Lower(s2)
    ensures Lower(StandardizeAddress(s1)) == Lower(StandardizeAddress(s2))
  {
    ApplyRulesIgnoresCase(s1, s2, Table);
  }

  /** `ST`, `St` and `st` all become `street`. */
  lemma StreetAnyCase()
    ensures Table[0] == Rule("St", "street")
    ensures Rewrite("ST", Table[0]) == "street"
    ensures Rewrite("St", Table[0]) == "street"
    ensures Rewrite("st", Table[0]) == "street"
  {
    assert Table[0] == StreetTypesA[0];
    WholeWordReplaced("ST", "St", "street");
    WholeWordReplaced("St", "St", "street");
    WholeWordReplaced("st", "St", "street");
  }

  /** The identity rule for `Bend` still rewrites, so it lower-cases a matched `BEND` or `Bend`. */
  lemma BendIsLowerCased()
    ensures Table[13] == Rule("Bend", "bend")
    ensures Rewrite("BEND", Table[13]) == "bend"
    ensures Rewrite("Bend", Table[13]) == "bend"
  {
    assert Table[13] == StreetTypesA[13];
    WholeWordReplaced("BEND", "Bend", "bend");
    WholeWordReplaced("Bend", "Bend", "bend");
  }

  /** `St` inside the longer word `Stone` is not a whole word, so the rule leaves it alone. */
  lemma NoRewriteInsideWord()
    ensures Rewrite("Stone", Table[0]) == "Stone"
  {
    assert Table[0] == StreetTypesA[0];
    var s := "Stone";
    assert !IsBoundary(s, 2);
    forall q: nat | q <= |s|
      ensures !MatchesAt(WholeWordIgnoreCase, s, "St", q)
    {
      if 0 < q && q + 2 <= |s| {
        assert Lower(s[q..q + 2])[0] == LowerChar(s[q]);
      }
    }
  }

  /**
   * Some expansions carry capitals, so a rewritten address is not lower case even when its
   * input was: `PO Box` and `po box` both become `post Office Box`.
   */
  lemma PostOfficeBoxKeepsCapitals()
    ensures Table[36] == Rule("po box", "post Office Box")
    ensures Rewrite("PO Box", Table[36]) == "post Office Box"
    ensures Rewrite("po box", Table[36]) == "post Office Box"
    ensures !IsLower("post Office Box")
  {
    assert Table[36] == PostalTypesB[2];
    WholeWordReplaced("PO Box", "po box", "post Office Box");
    WholeWordReplaced("po box", "po box", "post Office Box");
    assert "post Office Box"[5] == 'O';
  }
}
