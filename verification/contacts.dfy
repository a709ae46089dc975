/**
 * The mobile-matching workflow `dashboard_2` of matching_app.py with its I/O removed: the buyer
 * list's names are carried forward, each contact cell is parsed into mobile, e-mail and
 * do-not-email columns, the rows are grouped by buyer name taking the first present value of
 * each column, the gaps are filled with defaults, and each buyer's address is replaced by the
 * internal dataset's address for the same mobile number.
 */
module Contacts {
  import opened Options
  import opened Text

  /** A row of the buyer list. Only the first row of a buyer carries the name. */
  datatype ContactRow = ContactRow(name: Option<string>, address: Option<string>, contact: string)

  /** A row of the internal dataset, reduced to the two columns the mapping reads. */
  datatype InternalRow = InternalRow(mobile: string, address: Option<string>)

  /** A row of the output table. */
  datatype Buyer = Buyer(
    name: string,
    address: Option<string>,
    mobile: string,
    email: Option<string>,
    shouldContact: string,
    foundMatch: bool)

  /**
   * `standardize_mobile_v2` followed by `.astype(str)`. The function is not part of this model;
   * every operation takes it as a parameter.
   */
  type MobileStandardizer = string -> string

  const MobileTag: string := "[M]:"
  const EmailTag: string := "[E]:"
  const DoNotEmail: string := "Do Not Email"
  const DefaultContact: string := "Yes"
  /** The `fillna` value of the mobile column, written as the digits of the integer `9999999999`. */
  const DefaultMobile: string := "9999999999"

  // ---------------------------------------------------------------- forward fill

  /** Nothing is present in `xs` after position `i`. */
  ghost predicate NoneAfter<T>(xs: seq<Option<T>>, i: int) {
    forall j :: 0 <= i < j < |xs| ==> xs[j].None?
  }

  /** The last present value of `xs`: what `ffill` puts at the last position. */
  function LastPresent<T>(xs: seq<Option<T>>): (r: Option<T>)
    ensures r.None? <==> forall i :: 0 <= i < |xs| ==> xs[i].None?
    ensures r.Some? ==> exists i :: 0 <= i < |xs| && xs[i] == r && NoneAfter(xs, i)
  {
    if |xs| == 0 then None
    else if xs[|xs| - 1].Some? then xs[|xs| - 1]
    else
      var p := xs[..|xs| - 1];
      var r := LastPresent(p);
      assert forall i :: 0 <= i < |p| ==> p[i] == xs[i];
      assert r.Some? ==> exists i :: 0 <= i < |xs| && xs[i] == r && NoneAfter(xs, i) by {
        if r.Some? {
          var i :| 0 <= i < |p| && p[i] == r && NoneAfter(p, i);
          assert xs[i] == r && NoneAfter(xs, i);
        }
      }
      r
  }

  /** `ffill` carrying `last`, the value present before `xs` starts. */
  function FillFrom<T>(xs: seq<Option<T>>, last: Option<T>): (r: seq<Option<T>>)
    ensures |r| == |xs|
  {
    if |xs| == 0 then []
    else
      var cur := if xs[0].Some? then xs[0] else last;
      [cur] + FillFrom(xs[1..], cur)
  }

  /** `Series.ffill()`. */
  function FFill<T>(xs: seq<Option<T>>): (r: seq<Option<T>>)
    ensures |r| == |xs|
  {
    FillFrom(xs, None)
  }

  lemma {:induction false} LastPresentAppend<T>(a: seq<Option<T>>, b: seq<Option<T>>)
    decreases |b|
    ensures LastPresent(a + b) == if LastPresent(b).Some? then LastPresent(b) else LastPresent(a)
  {
    if |b| == 0 {
      assert a + b == a;
    } else if b[|b| - 1].None? {
      var b' := b[..|b| - 1];
      assert (a + b)[..|a + b| - 1] == a + b';
      LastPresentAppend(a, b');
    }
  }

  lemma {:induction false} FillFromIsLastPresent<T>(xs: seq<Option<T>>, last: Option<T>, i: int)
    requires 0 <= i < |xs|
    decreases |xs|
    ensures FillFrom(xs, last)[i] == if LastPresent(xs[..i + 1]).Some? then LastPresent(xs[..i + 1]) else last
  {
    var cur := if xs[0].Some? then xs[0] else last;
    assert LastPresent(xs[..1]) == xs[0] by {
      assert xs[..1] == [xs[0]];
      if xs[0].None? {
        assert [xs[0]][..0] == [];
      }
    }
    if i > 0 {
      FillFromIsLastPresent(xs[1..], cur, i - 1);
      assert xs[..i + 1] == xs[..1] + xs[1..][..i];
      LastPresentAppend(xs[..1], xs[1..][..i]);
    }
  }

  /** Forward fill puts at each position the last value present at or before it. */
  lemma FFillIsLastPresent<T>(xs: seq<Option<T>>, i: int)
    requires 0 <= i < |xs|
    ensures FFill(xs)[i] == LastPresent(xs[..i + 1])
    ensures xs[i].Some? ==> FFill(xs)[i] == xs[i]
  {
    FillFromIsLastPresent(xs, None, i);
    assert xs[..i + 1][i] == xs[i];
  }

  // ---------------------------------------------------------------- contact cells

  /**
   * `x.replace(tag, '').strip() if tag in x else None`: the contact cell without (every
   * occurrence of) the tag, stripped, when the cell contains the tag.
   */
  function ExtractTag(contact: string, tag: string): (r: Option<string>)
    ensures r.Some? <==> Contains(contact, tag)
    ensures r.Some? ==> r.value == [] || (!IsSpace(r.value[0]) && !IsSpace(r.value[|r.value| - 1]))
  {
    if Contains(contact, tag) then Some(Strip(Replace(Exact, contact, tag, ""))) else None
  }

  /** `x if x == 'Do Not Email' else None`. */
  function DoNotEmailFlag(contact: string): Option<string> {
    if contact == DoNotEmail then Some(contact) else None
  }

  /**
   * A cell written as the tag, a space and a value recovers the value, provided the value
   * has no surrounding whitespace and does not contain the tag's first character.
   */
  lemma TagRoundTrip(tag: string, v: string)
    requires |tag| > 0 && !IsSpace(tag[0]) && tag[0] !in v
    requires v == [] || (!IsSpace(v[0]) && !IsSpace(v[|v| - 1]))
    ensures ExtractTag(tag + " " + v, tag) == Some(v)
  {
    var s := tag + " " + v;
    var n := |tag|;
    assert OccursAt(s, tag, 0) by {
      assert s[0..n] == tag;
    }
    assert MatchesAt(Exact, s, tag, 0) by {
      assert s[0..n] == tag;
    }
    forall q: nat | n <= q <= |s|
      ensures !MatchesAt(Exact, s, tag, q)
    {
      if q + n <= |s| {
        assert s[q..q + n][0] == s[q];
        if q == n {
          assert s[q] == ' ';
        } else {
          assert s[q] == v[q - n - 1];
        }
      }
    }
    ReplaceFromUnchanged(Exact, s, tag, "", n);
    assert Replace(Exact, s, tag, "") == " " + v by {
      assert s[n..] == " " + v;
    }
    assert IsTrimOf(v, " " + v, 1) by {
      assert (" " + v)[..1] == " ";
      assert (" " + v)[1..1 + |v|] == v;
      assert (" " + v)[1 + |v|..] == [];
    }
    StripUnique(" " + v, v, 1);
  }

  // ---------------------------------------------------------------- group keys

  /** Python's `a < b` on strings: lexicographic by code point, a proper prefix first. */
  predicate Less(a: string, b: string)
    decreases |a|
  {
    |b| > 0 && (|a| == 0 || a[0] < b[0] || (a[0] == b[0] && Less(a[1..], b[1..])))
  }

  lemma {:induction false} LessTransitive(a: string, b: string, c: string)
    requires Less(a, b) && Less(b, c)
    decreases |a|
    ensures Less(a, c)
  {
    if |a| > 0 && a[0] == b[0] && b[0] == c[0] {
      LessTransitive(a[1..], b[1..], c[1..]);
    }
  }

  lemma {:induction false} LessAsymmetric(a: string, b: string)
    requires Less(a, b)
    decreases |a|
    ensures !Less(b, a)
  {
    if |a| > 0 && a[0] == b[0] {
      LessAsymmetric(a[1..], b[1..]);
    }
  }

  lemma {:induction false} LessTotal(a: string, b: string)
    requires a != b
    decreases |a|
    ensures Less(a, b) || Less(b, a)
  {
    if |a| > 0 && |b| > 0 && a[0] == b[0] {
      assert a == [a[0]] + a[1..] && b == [b[0]] + b[1..];
      LessTotal(a[1..], b[1..]);
    }
  }

  ghost predicate StrictlySorted(keys: seq<string>) {
    forall i, j :: 0 <= i < j < |keys| ==> Less(keys[i], keys[j])
  }

  /** Adds a key to a sorted list of distinct keys, keeping it sorted and distinct. */
  function InsertKey(k: string, keys: seq<string>): (r: seq<string>)
    requires StrictlySorted(keys)
    ensures StrictlySorted(r)
    ensures forall x :: x in r <==> x in keys || x == k
  {
    if |keys| == 0 then [k]
    else if k == keys[0] then keys
    else if Less(k, keys[0]) then
      assert forall j :: 0 <= j < |keys| ==> Less(k, keys[j]) by {
        forall j | 0 < j < |keys|
          ensures Less(k, keys[j])
        {
          LessTransitive(k, keys[0], keys[j]);
        }
      }
      [k] + keys
    else
      LessTotal(k, keys[0]);
      var rest := InsertKey(k, keys[1..]);
      assert forall x :: x in keys <==> x == keys[0] || x in keys[1..] by {
        assert keys == [keys[0]] + keys[1..];
      }
      assert forall x :: x in rest ==> Less(keys[0], x) by {
        forall x | x in rest
          ensures Less(keys[0], x)
        {
          if x != k {
            var j :| 1 <= j < |keys| && keys[j] == x;
          }
        }
      }
      assert forall j :: 0 <= j < |rest| ==> rest[j] in rest;
      [keys[0]] + rest
  }

  /** A sorted list of distinct keys with the given members is unique. */
  lemma {:induction false} SortedKeysUnique(a: seq<string>, b: seq<string>)
    requires StrictlySorted(a) && StrictlySorted(b)
    requires forall x :: x in a <==> x in b
    decreases |a|
    ensures a == b
  {
    NonEmptyWithSameMembers(a, b);
    NonEmptyWithSameMembers(b, a);
    if |a| > 0 {
      assert a[0] in b && b[0] in a;
      if a[0] != b[0] {
        var ja :| 0 <= ja < |a| && a[ja] == b[0];
        var jb :| 0 <= jb < |b| && b[jb] == a[0];
        LessAsymmetric(a[0], a[ja]);
        assert false;
      }
      forall x
        ensures x in a[1..] <==> x in b[1..]
      {
        if x in a[1..] {
          var j :| 1 <= j < |a| && a[j] == x;
          LessAsymmetric(a[0], a[j]);
          assert a[j] in a;
          var l :| 0 <= l < |b| && b[l] == x;
          assert b[1..][l - 1] == x;
        }
        if x in b[1..] {
          var j :| 1 <= j < |b| && b[j] == x;
          LessAsymmetric(b[0], b[j]);
          assert b[j] in b;
          var l :| 0 <= l < |a| && a[l] == x;
          assert a[1..][l - 1] == x;
        }
      }
      SortedKeysUnique(a[1..], b[1..]);
      assert a == [a[0]] + a[1..] && b == [b[0]] + b[1..];
    }
  }

  lemma NonEmptyWithSameMembers<T>(a: seq<T>, b: seq<T>)
    requires forall x :: x in a <==> x in b
    ensures |a| > 0 ==> |b| > 0
  {
    if |a| > 0 {
      assert a[0] in b;
    }
  }

  /**
   * The keys of `groupby('Name')`: the names present in the column, each once, in ascending
   * order. Rows without a name form no group.
   */
  function GroupKeys(names: seq<Option<string>>): (keys: seq<string>)
    ensures StrictlySorted(keys)
    ensures forall x :: x in keys <==> Some(x) in names
  {
    if |names| == 0 then []
    else
      var rest := GroupKeys(names[..|names| - 1]);
      assert names == names[..|names| - 1] + [names[|names| - 1]];
      match names[|names| - 1]
      case None => rest
      case Some(n) => InsertKey(n, rest)
  }

  // ---------------------------------------------------------------- grouping

  /** A buyer-list row after the forward fill, keeping the contact cell the columns derive from. */
  datatype Parsed = Parsed(name: Option<string>, address: Option<string>, contact: string)

  function ParseRows(rows: seq<ContactRow>): (ps: seq<Parsed>)
    ensures |ps| == |rows|
  {
    var names := FFill(Names(rows));
    seq(|rows|, i requires 0 <= i < |rows| => Parsed(names[i], rows[i].address, rows[i].contact))
  }

  function AddressOf(p: Parsed): Option<string> {
    p.address
  }

  /** The `Mobile` column: the contact cell with the `[M]:` tag removed. */
  function MobileOf(p: Parsed): Option<string> {
    ExtractTag(p.contact, MobileTag)
  }

  /** The `Email` column: the contact cell with the `[E]:` tag removed. */
  function EmailOf(p: Parsed): Option<string> {
    ExtractTag(p.contact, EmailTag)
  }

  /** The `Should I contact?` column. */
  function FlagOf(p: Parsed): Option<string> {
    DoNotEmailFlag(p.contact)
  }

  /** Row `j` is the first row of the group of `name` where column `f` is present. */
  ghost predicate FirstAt<U>(ps: seq<Parsed>, name: string, f: Parsed -> Option<U>, j: int) {
    && 0 <= j < |ps| && ps[j].name == Some(name) && f(ps[j]).Some?
    && forall l :: 0 <= l < j && ps[l].name == Some(name) ==> f(ps[l]).None?
  }

  /**
   * The `first` aggregation of column `f` for the group of `name`: the value of the first row
   * of the group where the column is present, or nothing when it is missing on every row.
   */
  function FirstInGroup<U>(ps: seq<Parsed>, name: string, f: Parsed -> Option<U>): (r: Option<U>)
    ensures r.None? <==> forall j :: 0 <= j < |ps| && ps[j].name == Some(name) ==> f(ps[j]).None?
    ensures r.Some? ==> exists j :: FirstAt(ps, name, f, j) && f(ps[j]) == r
  {
    var column := seq(|ps|, j requires 0 <= j < |ps| => if ps[j].name == Some(name) then f(ps[j]) else None);
    var r := FirstPresent(column);
    assert r.Some? ==> exists j :: FirstAt(ps, name, f, j) && f(ps[j]) == r by {
      if r.Some? {
        var j :| 0 <= j < |column| && column[j] == r && forall l :: 0 <= l < j ==> column[l].None?;
        assert ps[j].name == Some(name);
        assert forall l :: 0 <= l < j && ps[l].name == Some(name) ==> f(ps[l]).None? by {
          forall l | 0 <= l < j && ps[l].name == Some(name)
            ensures f(ps[l]).None?
          {
            assert column[l].None?;
          }
        }
        assert FirstAt(ps, name, f, j);
      }
    }
    assert r.None? <==> forall j :: 0 <= j < |ps| && ps[j].name == Some(name) ==> f(ps[j]).None? by {
      if r.None? {
        forall j | 0 <= j < |ps| && ps[j].name == Some(name)
          ensures f(ps[j]).None?
        {
          assert column[j].None?;
        }
      }
    }
    r
  }

  /** A group has one first row for each column. */
  lemma FirstAtUnique<U>(ps: seq<Parsed>, name: string, f: Parsed -> Option<U>, j: int, k: int)
    requires FirstAt(ps, name, f, j) && FirstAt(ps, name, f, k)
    ensures j == k
  {
  }

  /** One buyer after `agg(... 'first' ...)`: the first present value of each column. */
  datatype Aggregated = Aggregated(
    name: string,
    address: Option<string>,
    mobile: Option<string>,
    email: Option<string>,
    shouldContact: Option<string>)

  function Aggregate(ps: seq<Parsed>, name: string): Aggregated {
    Aggregated(name,
      FirstInGroup(ps, name, AddressOf),
      FirstInGroup(ps, name, MobileOf),
      FirstInGroup(ps, name, EmailOf),
      FirstInGroup(ps, name, FlagOf))
  }

  // ---------------------------------------------------------------- mobile to address

  /**
   * `internal_df.set_index('Mobile')['Address'].to_dict()` on standardised mobiles: every
   * standardised mobile is a key, and a later row overwrites an earlier one with the same key.
   */
  function AddressMap(internal: seq<InternalRow>, standardize: MobileStandardizer): (m: map<string, Option<string>>)
    ensures forall k :: k in m <==> exists i :: 0 <= i < |internal| && standardize(internal[i].mobile) == k
  {
    if |internal| == 0 then map[]
    else
      var n := |internal| - 1;
      var prefix := internal[..n];
      var m := AddressMap(prefix, standardize);
      assert forall i :: 0 <= i < n ==> internal[i] == prefix[i];
      m[standardize(internal[n].mobile) := internal[n].address]
  }

  /** The key of a mobile maps to the address of the last internal row with that mobile. */
  lemma {:induction false} LastRowWins(internal: seq<InternalRow>, standardize: MobileStandardizer, j: int)
    requires 0 <= j < |internal|
    requires forall l :: j < l < |internal| ==> standardize(internal[l].mobile) != standardize(internal[j].mobile)
    decreases |internal|
    ensures standardize(internal[j].mobile) in AddressMap(internal, standardize)
    ensures AddressMap(internal, standardize)[standardize(internal[j].mobile)] == internal[j].address
  {
    var n := |internal| - 1;
    if j < n {
      var prefix := internal[..n];
      assert forall l :: j < l < n ==> prefix[l] == internal[l];
      LastRowWins(prefix, standardize, j);
      assert prefix[j] == internal[j];
    }
  }

  /**
   * The last two steps for one buyer: `fillna` with the defaults, the mobile standardised, and
   * the address replaced by the mapped one when the map gives a present address.
   */
  function Finish(a: Aggregated, standardize: MobileStandardizer, m: map<string, Option<string>>): Buyer {
    var mobile := standardize(if a.mobile.Some? then a.mobile.value else DefaultMobile);
    var mapped := if mobile in m then m[mobile] else None;
    Buyer(a.name, if mapped.Some? then mapped else a.address, mobile, a.email,
          if a.shouldContact.Some? then a.shouldContact.value else DefaultContact, mapped.Some?)
  }

  /** The whole of `dashboard_2` between the uploads and the display. */
  function MatchMobiles(contacts: seq<ContactRow>, internal: seq<InternalRow>, standardize: MobileStandardizer): (out: seq<Buyer>)
    ensures |out| == |GroupKeys(Names(contacts))|
  {
    var ps := ParseRows(contacts);
    var keys := GroupKeys(ParsedNames(ps));
    var m := AddressMap(internal, standardize);
    assert GroupKeys(ParsedNames(ps)) == GroupKeys(Names(contacts)) by {
      FilledNamesSameKeys(contacts);
    }
    seq(|keys|, i requires 0 <= i < |keys| => Finish(Aggregate(ps, keys[i]), standardize, m))
  }

  /** Forward filling introduces no new name and keeps every name, so the groups are the same. */
  lemma FilledNamesSameKeys(contacts: seq<ContactRow>)
    ensures GroupKeys(ParsedNames(ParseRows(contacts))) == GroupKeys(Names(contacts))
  {
    var ps := ParseRows(contacts);
    var raw := Names(contacts);
    var filled := ParsedNames(ps);
    assert filled == FFill(raw);
    forall x
      ensures Some(x) in filled <==> Some(x) in raw
    {
      if Some(x) in filled {
        var i :| 0 <= i < |filled| && filled[i] == Some(x);
        FFillIsLastPresent(raw, i);
        var prefix := raw[..i + 1];
        var k :| 0 <= k < |prefix| && prefix[k] == Some(x);
        assert raw[k] == Some(x);
      }
      if Some(x) in raw {
        var i :| 0 <= i < |raw| && raw[i] == Some(x);
        FFillIsLastPresent(raw, i);
      }
    }
    SortedKeysUnique(GroupKeys(filled), GroupKeys(raw));
  }

  /** Row `j` is the last internal row whose standardised mobile is `key`. */
  ghost predicate LastWithMobile(internal: seq<InternalRow>, standardize: MobileStandardizer, key: string, j: int) {
    && 0 <= j < |internal|
    && standardize(internal[j].mobile) == key
    && forall l :: j < l < |internal| ==> standardize(internal[l].mobile) != key
  }

  /** Without its last row, the map loses at most the last row's key and keeps every other entry. */
  lemma AddressMapDropLast(internal: seq<InternalRow>, standardize: MobileStandardizer, key: string)
    requires |internal| > 0 && standardize(internal[|internal| - 1].mobile) != key
    ensures var prefix := internal[..|internal| - 1];
      && (key in AddressMap(internal, standardize) <==> key in AddressMap(prefix, standardize))
      && (key in AddressMap(prefix, standardize) ==> AddressMap(internal, standardize)[key] == AddressMap(prefix, standardize)[key])
  {
  }

  /** A last row with `key` before the final row stays the last one when the final row has another key. */
  lemma LastWithMobileExtend(internal: seq<InternalRow>, standardize: MobileStandardizer, key: string, j: int)
    requires |internal| > 0 && standardize(internal[|internal| - 1].mobile) != key
    requires LastWithMobile(internal[..|internal| - 1], standardize, key, j)
    ensures LastWithMobile(internal, standardize, key, j)
  {
    var prefix := internal[..|internal| - 1];
    assert forall l :: j < l < |prefix| ==> prefix[l] == internal[l];
    assert internal[j] == prefix[j];
  }

  /** A key of the mobile map carries the address of the last internal row with that mobile. */
  lemma {:induction false} AddressMapFromLastRow(internal: seq<InternalRow>, standardize: MobileStandardizer, key: string)
    requires key in AddressMap(internal, standardize)
    decreases |internal|
    ensures exists j :: (LastWithMobile(internal, standardize, key, j)
      && AddressMap(internal, standardize)[key] == internal[j].address)
  {
    var n := |internal| - 1;
    if standardize(internal[n].mobile) == key {
      assert LastWithMobile(internal, standardize, key, n);
    } else {
      var prefix := internal[..n];
      AddressMapDropLast(internal, standardize, key);
      AddressMapFromLastRow(prefix, standardize, key);
      var j :| LastWithMobile(prefix, standardize, key, j) && AddressMap(prefix, standardize)[key] == prefix[j].address;
      LastWithMobileExtend(internal, standardize, key, j);
      assert internal[j] == prefix[j];
    }
  }

  /** The names of the buyer-list rows as uploaded. */
  function Names(contacts: seq<ContactRow>): (names: seq<Option<string>>)
    ensures |names| == |contacts|
  {
    seq(|contacts|, i requires 0 <= i < |contacts| => contacts[i].name)
  }

  /** The `Name` column after the forward fill. */
  function ParsedNames(ps: seq<Parsed>): (names: seq<Option<string>>)
    ensures |names| == |ps|
  {
    seq(|ps|, i requires 0 <= i < |ps| => ps[i].name)
  }

  /**
   * One output row per name present in the buyer list, each name once, in ascending order of
   * the names.
   */
  lemma BuyersAreTheNames(contacts: seq<ContactRow>, internal: seq<InternalRow>, standardize: MobileStandardizer)
    ensures var out := MatchMobiles(contacts, internal, standardize);
      && (forall i, j :: 0 <= i < j < |out| ==> Less(out[i].name, out[j].name))
      && (forall x :: (exists i :: 0 <= i < |out| && out[i].name == x) <==> Some(x) in Names(contacts))
  {
    var ps := ParseRows(contacts);
    var keys := GroupKeys(ParsedNames(ps));
    FilledNamesSameKeys(contacts);
    var out := MatchMobiles(contacts, internal, standardize);
    assert forall i :: 0 <= i < |out| ==> out[i].name == keys[i];
    forall x
      ensures (exists i :: 0 <= i < |out| && out[i].name == x) <==> Some(x) in Names(contacts)
    {
      if x in keys {
        var i :| 0 <= i < |keys| && keys[i] == x;
        assert out[i].name == x;
      }
    }
  }

  /** The buyer-list rows that, after the forward fill, belong to the group of `name`. */
  ghost predicate InGroup(contacts: seq<ContactRow>, name: string, j: int) {
    0 <= j < |contacts| && ParseRows(contacts)[j].name == Some(name)
  }

  /**
   * `Should I contact?` is "Do Not Email" exactly when one of the buyer's rows is that text,
   * and "Yes" otherwise.
   */
  lemma BuyerShouldContact(contacts: seq<ContactRow>, internal: seq<InternalRow>, standardize: MobileStandardizer, i: int)
    requires 0 <= i < |MatchMobiles(contacts, internal, standardize)|
    ensures var b := MatchMobiles(contacts, internal, standardize)[i];
      && (b.shouldContact == DoNotEmail <==> exists j :: InGroup(contacts, b.name, j) && contacts[j].contact == DoNotEmail)
      && (b.shouldContact != DoNotEmail ==> b.shouldContact == DefaultContact)
  {
    var ps := ParseRows(contacts);
    var keys := GroupKeys(ParsedNames(ps));
    var b := MatchMobiles(contacts, internal, standardize)[i];
    assert b == Finish(Aggregate(ps, keys[i]), standardize, AddressMap(internal, standardize));
    assert forall j :: 0 <= j < |ps| ==> ps[j].contact == contacts[j].contact;
    var flag := FirstInGroup(ps, b.name, FlagOf);
    if flag.Some? {
      var k :| 0 <= k < |ps| && ps[k].name == Some(b.name) && FlagOf(ps[k]) == flag;
      assert InGroup(contacts, b.name, k);
    }
  }

  /** Row `j` is the buyer's first row whose contact cell holds `tag`. */
  ghost predicate FirstTagRow(contacts: seq<ContactRow>, name: string, tag: string, j: int) {
    && InGroup(contacts, name, j)
    && Contains(contacts[j].contact, tag)
    && forall l :: 0 <= l < j && InGroup(contacts, name, l) ==> !Contains(contacts[l].contact, tag)
  }

  /** A parsed tag column (`Mobile` or `Email`) is present exactly on the rows whose cell holds the tag. */
  lemma TagColumn(contacts: seq<ContactRow>, tag: string, f: Parsed -> Option<string>)
    requires forall p :: f(p) == ExtractTag(p.contact, tag)
    ensures var ps := ParseRows(contacts);
      forall j :: 0 <= j < |ps| ==>
        && (f(ps[j]).Some? <==> Contains(contacts[j].contact, tag))
        && f(ps[j]) == ExtractTag(contacts[j].contact, tag)
  {
  }

  /** A buyer's first row holding `tag` is the first row of its group where the tag column is present. */
  lemma FirstTagRowIsFirstAt(contacts: seq<ContactRow>, name: string, tag: string, f: Parsed -> Option<string>, j: int)
    requires forall p :: f(p) == ExtractTag(p.contact, tag)
    requires FirstTagRow(contacts, name, tag, j)
    ensures FirstAt(ParseRows(contacts), name, f, j)
  {
    var ps := ParseRows(contacts);
    TagColumn(contacts, tag, f);
    forall l | 0 <= l < j && ps[l].name == Some(name)
      ensures f(ps[l]).None?
    {
      assert InGroup(contacts, name, l);
    }
  }

  /**
   * The `first` aggregation of a tag column, in terms of the buyer's rows: missing exactly when
   * no row holds the tag, otherwise the value extracted from the first row that does.
   */
  lemma GroupTag(contacts: seq<ContactRow>, name: string, tag: string, f: Parsed -> Option<string>)
    requires forall p :: f(p) == ExtractTag(p.contact, tag)
    ensures var v := FirstInGroup(ParseRows(contacts), name, f);
      && (v.None? <==> forall j :: InGroup(contacts, name, j) ==> !Contains(contacts[j].contact, tag))
      && (forall j :: FirstTagRow(contacts, name, tag, j) ==> v == ExtractTag(contacts[j].contact, tag))
  {
    var ps := ParseRows(contacts);
    TagColumn(contacts, tag, f);
    var v := FirstInGroup(ps, name, f);
    forall j | FirstTagRow(contacts, name, tag, j)
      ensures v == ExtractTag(contacts[j].contact, tag)
    {
      FirstTagRowIsFirstAt(contacts, name, tag, f, j);
      var k :| FirstAt(ps, name, f, k) && f(ps[k]) == v;
      FirstAtUnique(ps, name, f, j, k);
    }
  }

  /**
   * The e-mail is present exactly when some row of the buyer holds an `[E]:` cell, and is then
   * the first such cell with the tag removed and the rest stripped.
   */
  lemma BuyerEmail(contacts: seq<ContactRow>, internal: seq<InternalRow>, standardize: MobileStandardizer, i: int)
    requires 0 <= i < |MatchMobiles(contacts, internal, standardize)|
    ensures var b := MatchMobiles(contacts, internal, standardize)[i];
      && (b.email.Some? <==> exists j :: InGroup(contacts, b.name, j) && Contains(contacts[j].contact, EmailTag))
      && (forall j :: FirstTagRow(contacts, b.name, EmailTag, j) ==> b.email == ExtractTag(contacts[j].contact, EmailTag))
  {
    var ps := ParseRows(contacts);
    var keys := GroupKeys(ParsedNames(ps));
    var b := MatchMobiles(contacts, internal, standardize)[i];
    assert b == Finish(Aggregate(ps, keys[i]), standardize, AddressMap(internal, standardize));
    GroupTag(contacts, b.name, EmailTag, EmailOf);
  }

  /**
   * The mobile is the standardised value of the buyer's first `[M]:` cell, or the standardised
   * default when the buyer has none.
   */
  lemma BuyerMobile(contacts: seq<ContactRow>, internal: seq<InternalRow>, standardize: MobileStandardizer, i: int)
    requires 0 <= i < |MatchMobiles(contacts, internal, standardize)|
    ensures var b := MatchMobiles(contacts, internal, standardize)[i];
      && ((forall j :: InGroup(contacts, b.name, j) ==> !Contains(contacts[j].contact, MobileTag))
            ==> b.mobile == standardize(DefaultMobile))
      && (forall j :: FirstTagRow(contacts, b.name, MobileTag, j)
            ==> b.mobile == standardize(ExtractTag(contacts[j].contact, MobileTag).value))
  {
    var ps := ParseRows(contacts);
    var keys := GroupKeys(ParsedNames(ps));
    var b := MatchMobiles(contacts, internal, standardize)[i];
    assert b == Finish(Aggregate(ps, keys[i]), standardize, AddressMap(internal, standardize));
    GroupTag(contacts, b.name, MobileTag, MobileOf);
  }

  /**
   * A buyer's address and match flag: `Found a Match` holds exactly when the last internal row
   * with the buyer's standardised mobile has a present address, and then that address replaces
   * the buyer's; otherwise the buyer keeps the first address of its rows.
   */
  lemma BuyerAddress(contacts: seq<ContactRow>, internal: seq<InternalRow>, standardize: MobileStandardizer, i: int)
    requires 0 <= i < |MatchMobiles(contacts, internal, standardize)|
    ensures var b := MatchMobiles(contacts, internal, standardize)[i];
      && (b.foundMatch <==> exists j :: LastWithMobile(internal, standardize, b.mobile, j) && internal[j].address.Some?)
      && (b.foundMatch ==> exists j :: LastWithMobile(internal, standardize, b.mobile, j) && internal[j].address == b.address)
      && (!b.foundMatch ==> b.address == FirstInGroup(ParseRows(contacts), b.name, AddressOf))
  {
    var ps := ParseRows(contacts);
    var keys := GroupKeys(ParsedNames(ps));
    var m := AddressMap(internal, standardize);
    var b := MatchMobiles(contacts, internal, standardize)[i];
    assert b == Finish(Aggregate(ps, keys[i]), standardize, m);
    if b.mobile in m {
      AddressMapFromLastRow(internal, standardize, b.mobile);
    }
    forall j | LastWithMobile(internal, standardize, b.mobile, j)
      ensures b.mobile in m && m[b.mobile] == internal[j].address
    {
      LastRowWins(internal, standardize, j);
    }
  }
}
