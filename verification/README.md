# MatchPoint record-linkage core in Dafny

This project models the record-linkage engine of MatchPoint, a Streamlit tool that matches
property-owner records between two spreadsheets. It covers the pure logic of `Functions.py` and
of the two dashboards in `matching_app.py`:

- **Address standardiser** (`Address`, on top of `Text`). `standardize_address` is an ordered
  table of 84 whole-word, case-insensitive abbreviation rewrites. Each rewrite is modelled as a
  left-to-right, non-overlapping scan of the original string. `\b` is modelled over ASCII word
  characters.
- **Best-match resolver** (`Resolver`). `combined_matching` is a linear scan that keeps the first
  row with the strictly highest address similarity. The name score, full name and mobile come
  from that same row. `rapidfuzz.fuzz.ratio` is a parameter whose only assumed property is its
  range [0,100].
- **Score post-processing** (`Scores`, `Collisions`):
  - `normalize_combined_score` as min-max rescaling. A column without spread becomes all NaN, as
    pandas computes 0/0.
  - `confidence` as three tiers.
  - The collision pass of `dashboard_1`: sort by score descending, mark repeated
    `Best Match Address` values with `duplicated(keep='first')`, and blank the marked rows.
    The `"none"` sentinel of unmatched rows is treated like any other address: all unmatched
    rows carry it, so all but the first are blanked (Collisions.ClaimsAreUnique and
    Collisions.DuplicatesAreBlanked cover it).
- **`dashboard_1` column transforms** (`Dashboard`): lower-casing, joining address and suburb,
  removing commas, stripping, building full names, one resolver call per target row, then the
  pass above.
- **`dashboard_2` contact workflow** (`Contacts`):
  - forward fill of buyer names;
  - `[M]:`/`[E]:` tag extraction and the `Do Not Email` flag;
  - `groupby('Name')` with `first`, and the defaults of `fillna`;
  - the mobile→address map, where a later row wins, and the `Found a Match` column.

Sequences model columns. `Option` models a cell that may be NaN. `real` models the float scores.

## Model

| member | source | states |
|---|---|---|
| Options.FirstPresent | matching_app.py:165-170 | `first` aggregation: nothing exactly when every value is missing, otherwise the value at the first present position |
| Text.ReplaceFromUnchanged | Functions.py:110-111 | where the pattern has no whole-word match, a rewrite returns the input unchanged |
| Text.ReplaceFromAvoids | Functions.py:110-111 | a rewrite introduces no character that is in neither the input nor the replacement |
| Text.ReplaceFromIgnoresCase | Functions.py:111 | inputs equal up to case are rewritten at the same places, so the results are equal up to case |
| Text.WholeWordReplaced | Functions.py:111 | for a pattern that starts and ends with a word character (every table pattern does), a string that is the pattern up to case is one whole-word match and becomes the replacement |
| Text.RemoveCharLeavesNone | matching_app.py:55-56 | `str.replace(',', '')` leaves no comma |
| Text.RemoveCharAppend | matching_app.py:52-56 | removing a character distributes over concatenation |
| Text.StripOfStripped | matching_app.py:55-62 | `strip()` leaves a string without surrounding whitespace unchanged |
| Text.StripUnique | matching_app.py:55-62 | `strip()` returns the only trim of the input that neither starts nor ends with whitespace |
| Text.StripAvoids | matching_app.py:55-56 | stripping adds no character |
| Text.StripKeepsLower | matching_app.py:62 | stripping a lower-case string leaves it lower case |
| Text.Lower | matching_app.py:48-49 | same length; every ASCII capital becomes its lower-case letter and every other character is kept |
| Text.Strip | matching_app.py:55-62 | the result neither starts nor ends with whitespace and is the input with whitespace removed from both ends only (unique by Text.StripUnique) |
| Text.ReplaceFrom | Functions.py:111 | the left-to-right, non-overlapping scan of `re.sub` and `str.replace`; its behaviour is stated by Text.ReplaceFromSplit, Text.ReplaceFromUnchanged and Text.ReplaceFromAvoids |
| Text.Replace | matching_app.py:55-56 | `str.replace` and `re.sub` on a whole string; stated by Text.RemoveCharLeavesNone, Text.RemoveCharAppend and Text.WholeWordReplaced |
| Text.ReplaceFromSplit | Functions.py:111 | up to the next match the scan copies the input, the match becomes the replacement, and the scan resumes right after it |
| Text.ReplaceFromAtMatch | Functions.py:111 | at a match the scan writes the replacement and resumes after the match |
| Address.StandardizeAddress | Functions.py:19-113 | the 84-rule table applied in order; stated by Address.StandardizeStep, Address.StandardizeUnchanged, Address.StandardizeNoComma and Address.StandardizeIgnoresCase |
| Address.Rewrite | Functions.py:111 | one `re.sub(r'\b' + old + r'\b', new, address, flags=re.IGNORECASE)`; stated by Address.RewriteAbsent, Text.ReplaceFromSplit and Text.WholeWordReplaced |
| Address.ApplyRules | Functions.py:110-113 | the rewrite loop over the table; stated by Address.ApplyRulesAppend, Address.ApplyRulesAbsent, Address.ApplyRulesNoComma and Address.ApplyRulesIgnoresCase |
| Address.RewriteAbsent | Functions.py:110-111 | a rule with no whole-word match leaves the address as it is |
| Address.ApplyRulesAbsent | Functions.py:110-113 | rules none of which match leave the address as it is |
| Address.StandardizeUnchanged | Functions.py:19-113 | an address containing no whole-word key of the table is returned unchanged |
| Address.ApplyRulesNoComma | Functions.py:110-113 | comma-free replacements keep a comma-free address comma-free |
| Address.StandardizeNoComma | Functions.py:19-113 | standardising a comma-free address yields a comma-free address |
| Address.ApplyRulesAppend | Functions.py:110-111 | applying two rule lists in sequence is applying their concatenation |
| Address.StandardizeStep | Functions.py:110-111 | rule k rewrites the output of rules 0..k-1, in table order |
| Address.ApplyRulesIgnoresCase | Functions.py:110-111 | rule lists treat inputs equal up to case alike, up to case |
| Address.StandardizeIgnoresCase | Functions.py:111 | the standardiser's result depends on its input's case only up to case |
| Address.StreetAnyCase | Functions.py:21 | `ST`, `St` and `st` all become `street` |
| Address.BendIsLowerCased | Functions.py:34 | the identity rule `Bend` still rewrites, lower-casing `BEND` and `Bend` |
| Address.NoRewriteInsideWord | Functions.py:21 | `St` inside `Stone` is not a whole word and is not rewritten |
| Address.PostOfficeBoxKeepsCapitals | Functions.py:58 | `po box` in any case becomes `post Office Box`, which is not lower case |
| Resolver.Similarity | Functions.py:125 | `fuzz.ratio / 100` lies in [0,1] |
| Resolver.Scan | Functions.py:124-132 | the recorded address score bounds every row's address score; both recorded scores lie in [0,1] |
| Resolver.CombinedMatching | Functions.py:116-136 | the combined score is the product of the two scores and lies in [0,1] |
| Resolver.ProductInUnit | Functions.py:134 | a product of two scores in [0,1] lies in [0,1] |
| Resolver.ScanFindsFirstBest | Functions.py:124-132 | the scan ends on the first row attaining the maximal positive address score, and on its initial values only when there is none |
| Resolver.ResolverPicksFirstBest | Functions.py:124-136 | address, full name, mobile and name score (target name against that row's last name) all come from the first best row |
| Resolver.ResolverNoMatch | Functions.py:117-134 | the result is the `'none'`/0 sentinel exactly when no lookup address scores above 0, including an empty lookup set |
| Resolver.FirstBestOrNothing | Functions.py:124-132 | either some row is the first best one or no row scores above 0 |
| Resolver.ResolverResultFromRow | Functions.py:124-136 | every result is the sentinel or takes address, name and mobile from one lookup row |
| Scores.Confidence | Functions.py:138-144 | High iff score >= 0.70, Medium iff 0.40 <= score < 0.70, Low otherwise (NaN included); never `No Match` |
| Scores.ConfidenceMonotone | Functions.py:138-144 | a higher score never gets a lower tier |
| Scores.Min | Functions.py:148 | the minimum is an element of the column and at most every element |
| Scores.Max | Functions.py:148 | the maximum is an element of the column and at least every element |
| Scores.ScaleMonotone | Functions.py:148 | multiplying by a positive number keeps order both ways |
| Scores.RescaleFacts | Functions.py:148 | rescaling maps lo to 0 and hi to 1 (only them), keeps order both ways and maps [lo,hi] into [0,1] |
| Scores.Normalize | Functions.py:147-148 | same length; a cell is NaN exactly when the column has no spread |
| Scores.NormalizeEndpointsAndOrder | Functions.py:147-148 | with spread: results in [0,1], the minimum exactly to 0, the maximum exactly to 1, order kept both ways |
| Collisions.Insert | matching_app.py:88 | inserting into a descending table keeps it descending and adds exactly that row |
| Collisions.SortDesc | matching_app.py:88 | the sorted table is descending by score (NaN last) and a permutation of the input |
| Collisions.DropDuplicates | matching_app.py:91-96 | a row is blanked exactly when its address was claimed earlier; other rows are unchanged |
| Collisions.CollisionPass | matching_app.py:88-96 | the pass keeps the number of rows |
| Collisions.Blank | matching_app.py:94-96 | what a duplicate row is overwritten with; stated by Collisions.DuplicatesAreBlanked |
| Collisions.ResolveCollisions | matching_app.py:91-96 | the duplicate mask and the blanking on sorted rows; stated by Collisions.ClaimsAreUnique, Collisions.DuplicatesAreBlanked and Collisions.SurvivorHasBestScore |
| Collisions.PassRowsFromInput | matching_app.py:88-96 | every row the pass outputs is an input row, as it was or blanked |
| Collisions.PassOutput | matching_app.py:88-96 | on consistent rows the pass outputs every row's own columns once, no present address twice, and only consistent rows taken from the input, as they were or blanked |
| Collisions.ClaimsAreUnique | matching_app.py:91-96 | after the pass no two rows share a present `Best Match Address` |
| Collisions.SurvivorHasBestScore | matching_app.py:88-91 | the row keeping an address scores at least as high as every row claiming it |
| Collisions.DuplicatesAreBlanked | matching_app.py:91-96 | duplicates lose address, mobile and name, get score 0 and `No Match`, keep their own columns; non-duplicates are unchanged |
| Collisions.InsertTargets | matching_app.py:88 | inserting a row adds exactly its own columns to the table's |
| Collisions.SortTargets | matching_app.py:88 | sorting keeps every row's own columns, each as often as before |
| Collisions.CollisionPassPermutes | matching_app.py:88-96 | the output is the descending arrangement of the input rows with their own columns unchanged |
| Dashboard.CleanAddress | matching_app.py:55-56 | `.str.lower().str.replace(',', '').str.strip()`; stated by Dashboard.CleanAddressShape and Dashboard.TargetAddressJoin |
| Dashboard.FullName | matching_app.py:59 | the `Full Name` column; stated by Dashboard.FullNameShape and Dashboard.FullNameOfTrimmedNames |
| Dashboard.PrepareInternal | matching_app.py:48-65 | an internal row as the resolver sees it; stated by Dashboard.PreparedAddressesHaveNoComma |
| Dashboard.PrepareTarget | matching_app.py:49-66 | a target row with address and suburb joined, cleaned and standardised; stated by Dashboard.TargetAddressJoin, Dashboard.PreparedAddressesHaveNoComma and Dashboard.OwnerNameShape |
| Dashboard.ScoreRows | matching_app.py:78-82 | one scored row per target; contents stated by Dashboard.ScoreRowsConsistent |
| Dashboard.MatchPrepared | matching_app.py:67-96 | one output row per prepared target; stated by Dashboard.MatchPreparedOutput |
| Dashboard.MatchAddresses | matching_app.py:48-96 | one output row per uploaded target; stated by Dashboard.MatchAddressesOutput |
| Dashboard.CleanAddressShape | matching_app.py:55-56 | a cleaned address is lower case, comma-free and has no surrounding whitespace |
| Dashboard.RemoveCommasChar | matching_app.py:55-56 | removing commas from one character keeps it unless it is a comma |
| Dashboard.RemoveCommasAppend | matching_app.py:55-56 | removing commas distributes over concatenation |
| Dashboard.TargetAddressJoin | matching_app.py:49-56 | the target address is the comma-free address and comma-free suburb joined by one space, lower-cased and stripped |
| Dashboard.PreparedAddressesHaveNoComma | matching_app.py:48-66 | both prepared address columns are comma-free after standardisation |
| Dashboard.OwnerNameShape | matching_app.py:62 | a prepared `Owner's Name` is lower case and has no surrounding whitespace |
| Dashboard.FullNameShape | matching_app.py:59 | the full name is lower case without surrounding whitespace |
| Dashboard.FullNameOfTrimmedNames | matching_app.py:59 | for trimmed non-empty names the full name is `first + " " + last`, lowered |
| Dashboard.MatchAll | matching_app.py:67-78 | one match per target row, each combined score the product of its scores and in [0,1] |
| Dashboard.ScoreRowsConsistent | matching_app.py:78-82 | before the pass row k is target k with the address, name and mobile of match k, the k-th normalised combined score and that score's tier |
| Dashboard.MatchPreparedOutput | matching_app.py:67-96 | every prepared target row appears once, present addresses are unique, each row is tier-consistent or blanked, and each row is the scored row of some target, as it was or blanked |
| Dashboard.MatchAddressesOutput | matching_app.py:48-96 | from uploaded rows: every prepared target row appears once, present addresses are unique, each row is tier-consistent or blanked, and each row is the scored row of some prepared target, as it was or blanked |
| Contacts.LastPresent | matching_app.py:158 | the last present value: nothing exactly when all are missing, else the value at the last present position |
| Contacts.FFill | matching_app.py:158 | `ffill` keeps the length; stated by Contacts.FFillIsLastPresent |
| Contacts.DoNotEmailFlag | matching_app.py:162 | the `Should I contact?` cell; stated by Contacts.BuyerShouldContact |
| Contacts.Aggregate | matching_app.py:165-170 | the `first` aggregation of the four columns; stated by Contacts.FirstInGroup, Contacts.GroupTag, Contacts.BuyerEmail and Contacts.BuyerShouldContact |
| Contacts.Finish | matching_app.py:174-187 | `fillna`, mobile standardisation and the address map; stated by Contacts.BuyerMobile, Contacts.BuyerAddress and Contacts.BuyerShouldContact |
| Contacts.MatchMobiles | matching_app.py:158-187 | one buyer per present name; stated by Contacts.BuyersAreTheNames, Contacts.BuyerMobile, Contacts.BuyerEmail, Contacts.BuyerAddress and Contacts.BuyerShouldContact |
| Contacts.LastPresentAppend | matching_app.py:158 | the last present value of `a + b` is that of `b`, or of `a` when `b` has none |
| Contacts.FillFromIsLastPresent | matching_app.py:158 | forward fill with a carried value equals the last present value up to each position |
| Contacts.FFillIsLastPresent | matching_app.py:158 | `ffill` puts at each position the last name present at or before it and keeps present names |
| Contacts.ExtractTag | matching_app.py:160-161 | a value exactly when the cell contains the tag; the value has no surrounding whitespace |
| Contacts.TagRoundTrip | matching_app.py:160-161 | a cell `tag + " " + v` yields exactly `v` when `v` has no surrounding whitespace, does not contain the tag's first character, and the tag does not start with whitespace |
| Contacts.LessTransitive | matching_app.py:165 | Python's string order is transitive |
| Contacts.LessAsymmetric | matching_app.py:165 | Python's string order is asymmetric |
| Contacts.LessTotal | matching_app.py:165 | any two different strings are ordered |
| Contacts.InsertKey | matching_app.py:165 | inserting a key keeps the keys sorted and distinct and adds exactly that key |
| Contacts.SortedKeysUnique | matching_app.py:165 | two sorted distinct key lists with the same members are equal |
| Contacts.NonEmptyWithSameMembers | matching_app.py:165 | lists with the same members are empty together |
| Contacts.GroupKeys | matching_app.py:165-170 | the group keys are sorted, distinct, and exactly the present names |
| Contacts.FirstInGroup | matching_app.py:165-170 | a group's `first` value is missing exactly when missing on every row of the group, else it is the first present one |
| Contacts.AddressMap | matching_app.py:182 | the map's keys are exactly the standardised internal mobiles |
| Contacts.LastRowWins | matching_app.py:182 | a mobile maps to the address of its last internal row |
| Contacts.AddressMapFromLastRow | matching_app.py:182 | every map value is the address of the last internal row with that mobile |
| Contacts.FilledNamesSameKeys | matching_app.py:158-165 | the forward fill adds no name and loses none, so the groups are the same |
| Contacts.BuyersAreTheNames | matching_app.py:165-170 | one output row per present name, each once, in ascending name order |
| Contacts.BuyerShouldContact | matching_app.py:162-174 | `Should I contact?` is "Do Not Email" exactly when a row of the buyer is that text, else "Yes" |
| Contacts.BuyerEmail | matching_app.py:161-168 | the e-mail is present exactly when a row of the buyer holds an `[E]:` cell, and is then the first such cell with the tag removed and the rest stripped |
| Contacts.TagColumn | matching_app.py:160-161 | the `Mobile`/`Email` column of a row is present exactly when its cell holds the tag, and is the extracted value |
| Contacts.GroupTag | matching_app.py:160-168 | a group's `Mobile`/`Email` is missing exactly when no row of the buyer holds the tag, else it is the value extracted from the first row that does |
| Contacts.BuyerMobile | matching_app.py:160-178 | the mobile is the standardised first `[M]:` value, or the standardised default when there is none |
| Contacts.BuyerAddress | matching_app.py:182-187 | `Found a Match` iff the last internal row with the mobile has an address, which then replaces the buyer's; otherwise the first group address stays |

## Left out

- Streamlit UI, file uploads, `read_excel`/`read_csv`, `st.write` and download buttons: I/O.
- `create_styled_excel` and the other openpyxl/BytesIO output, including the confidence colour fills: output formatting.
- `rapidfuzz.fuzz.ratio` is a foreign library. It is a parameter `Ratio` with range [0,100]; its edit-distance definition is not modelled.
- `find_best_matches` (matching_app.py:67) is not defined in either file. The per-row step is `combined_matching` on the prepared target address and owner's name.
- `standardize_mobile_v2` (matching_app.py:178-179) is not defined. It is a parameter `MobileStandardizer` applied to strings; the integer default `9999999999` is passed to it as its digits.
- `clean_column_names`: a pandas wrapper over column headers, which the model does not have.
- Floating point: scores are exact reals, so rounding in `/ 100`, in the product and in the rescaling is not modelled.
- NaN input cells other than the ones named here are not modelled: addresses, suburbs, names and contact cells of the two dashboards' inputs are strings. A NaN cell in the buyer list's `Address` column, in the internal `Address` column and in the name column is modelled.
- Case folding and `\b` cover ASCII only; `str.lower`, `str.strip` and `\w` on other Unicode characters are not modelled.
- Empty patterns never match in the scanner. The table has none.
- Collisions.SortDesc: pandas' quicksort does not fix the order of equal scores. The model sorts by insertion, which is one admissible order. Collisions.ClaimsAreUnique, Collisions.SurvivorHasBestScore and Collisions.DuplicatesAreBlanked are stated for every descending arrangement. Collisions.CollisionPassPermutes, Collisions.PassOutput, Dashboard.MatchPreparedOutput and Dashboard.MatchAddressesOutput are stated for the insertion order only. Among rows with equal scores, which one keeps a shared address depends on the tie order.
- Idempotence of address preparation is not proved, and does not hold: some expansions carry capitals (Address.PostOfficeBoxKeepsCapitals), so a second preparation pass lower-cases them.
- Contacts.GroupKeys: the groups come out in Python's code-point order of the names, which is pandas' default `sort=True`. Locale-aware ordering is not modelled.
- There is no early-exit threshold; the scan always visits every row.
