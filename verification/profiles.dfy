/** Character profiles from the umapyoi API: `fetch_chara_data` turns one character's API object
    into `{category: text}`, `apply_umapyoi_character_profiles` regroups those per category and
    runs `import_category` once per category file. */
module Profiles {
  import opened Wrappers
  import opened Entries
  import opened Category

  /** `convert_map`: API field name and the text category it fills, in the dict's order. */
  const ConvertMap: seq<(string, int)> := [
    ("profile", 163),
    ("slogan", 144),
    ("ears_fact", 166),
    ("tail_fact", 167),
    ("strengths", 164),
    ("weaknesses", 165),
    ("family_fact", 169)]

  /** The categories `convert_map` can produce. */
  const ProfileCategories: set<int> := {163, 144, 166, 167, 164, 165, 169}

  /** A character object from the API: each field is absent, `null` (None) or a string. */
  type ApiCharacter = map<string, Option<string>>

  /** `data.get(field)` is truthy. */
  predicate HasText(data: ApiCharacter, field: string) {
    field in data && data[field].Some? && |data[field].value| > 0
  }

  /** A `{category: text}` dict, as its items in insertion order. */
  type Profile = seq<(int, string)>

  /** `item` is what some row of `table` contributes: a truthy field and the category it fills. */
  predicate FromTable(data: ApiCharacter, table: seq<(string, int)>, item: (int, string)) {
    exists t :: 0 <= t < |table| && table[t].1 == item.0 && HasText(data, table[t].0) && data[table[t].0].value == item.1
  }

  /** No two rows of `table` fill the same category, as in `convert_map`. */
  predicate DistinctCategories(table: seq<(string, int)>) {
    forall t, u :: 0 <= t < u < |table| ==> table[t].1 != table[u].1
  }

  /** The loop over `table` filling `out[1]`: one item per field whose value is truthy, in table
      order, and so no category twice. */
  function FieldsFrom(data: ApiCharacter, table: seq<(string, int)>): (r: Profile)
    requires DistinctCategories(table)
    ensures forall a :: 0 <= a < |r| ==> FromTable(data, table, r[a])
    ensures forall t :: 0 <= t < |table| && HasText(data, table[t].0) ==>
              (table[t].1, data[table[t].0].value) in r
    ensures forall a, b :: 0 <= a < b < |r| ==> r[a].0 != r[b].0
  {
    if |table| == 0 then []
    else
      assert DistinctCategories(table[1..]) by {
        forall t, u | 0 <= t < u < |table| - 1 ensures table[1..][t].1 != table[1..][u].1 {
          assert table[1..][t] == table[t + 1] && table[1..][u] == table[u + 1];
        }
      }
      var rest := FieldsFrom(data, table[1..]);
      forall a | 0 <= a < |rest| ensures rest[a].0 != table[0].1 {
        var t :| 0 <= t < |table[1..]| && table[1..][t].1 == rest[a].0 && HasText(data, table[1..][t].0)
                 && data[table[1..][t].0].value == rest[a].1;
        assert table[1..][t] == table[t + 1];
      }
      assert forall t :: 1 <= t < |table| ==> table[t] == table[1..][t - 1];
      forall item | FromTable(data, table[1..], item) ensures FromTable(data, table, item) {
        var t :| 0 <= t < |table[1..]| && table[1..][t].1 == item.0 && HasText(data, table[1..][t].0)
                 && data[table[1..][t].0].value == item.1;
        assert table[t + 1] == table[1..][t];
      }
      if HasText(data, table[0].0) then
        var head := (table[0].1, data[table[0].0].value);
        assert FromTable(data, table, head) by {
          assert table[0].1 == head.0;
        }
        [head] + rest
      else rest
  }

  /** `fetch_chara_data` once the API has answered: `response` is None when the request failed. */
  function FetchCharacter(id: int, response: Option<ApiCharacter>): (r: (int, Profile))
    ensures r.0 == id
    ensures response.None? ==> r.1 == []
    ensures forall a :: 0 <= a < |r.1| ==> r.1[a].0 in ProfileCategories && |r.1[a].1| > 0
    ensures response.Some? ==>
              forall t :: 0 <= t < |ConvertMap| && HasText(response.value, ConvertMap[t].0) ==>
                (ConvertMap[t].1, response.value[ConvertMap[t].0].value) in r.1
    ensures response.Some? ==> forall a :: 0 <= a < |r.1| ==> FromTable(response.value, ConvertMap, r.1[a])
    ensures forall a, b :: 0 <= a < b < |r.1| ==> r.1[a].0 != r.1[b].0
  {
    match response
    case None => (id, [])
    case Some(data) =>
      assert DistinctCategories(ConvertMap);
      var fields := FieldsFrom(data, ConvertMap);
      assert forall a :: 0 <= a < |fields| ==> fields[a].0 in ProfileCategories;
      (id, fields)
  }

  /** `category_data`: a dict from category to its `(chara_id, value)` list, as items in insertion order. */
  type Groups = seq<(int, seq<(int, string)>)>

  /** `category_data.get(c, [])`. */
  function GroupOf(groups: Groups, c: int): seq<(int, string)>
  {
    if |groups| == 0 then [] else if groups[0].0 == c then groups[0].1 else GroupOf(groups[1..], c)
  }

  /** `c in category_data`. */
  predicate HasGroup(groups: Groups, c: int) {
    |groups| > 0 && (groups[0].0 == c || HasGroup(groups[1..], c))
  }

  /** `category_data` is a dict (no category twice) whose lists are never empty. */
  predicate WellFormed(groups: Groups) {
    |groups| == 0 || (!HasGroup(groups[1..], groups[0].0) && |groups[0].1| > 0 && WellFormed(groups[1..]))
  }

  lemma {:induction false} GroupOfPresent(groups: Groups, c: int)
    requires WellFormed(groups)
    ensures HasGroup(groups, c) <==> |GroupOf(groups, c)| > 0
  {
    if |groups| > 0 {
      GroupOfPresent(groups[1..], c);
    }
  }

  /** One append: `category_data[c].append(tup)`, or a new list `[tup]` at the end of the dict. */
  function AddItem(groups: Groups, c: int, tup: (int, string)): (r: Groups)
    requires WellFormed(groups)
    ensures WellFormed(r)
    ensures forall d :: GroupOf(r, d) == if d == c then GroupOf(groups, d) + [tup] else GroupOf(groups, d)
    ensures forall d :: HasGroup(r, d) <==> HasGroup(groups, d) || d == c
  {
    if |groups| == 0 then [(c, [tup])]
    else if groups[0].0 == c then [(c, groups[0].1 + [tup])] + groups[1..]
    else
      var r := [groups[0]] + AddItem(groups[1..], c, tup);
      assert r[1..] == AddItem(groups[1..], c, tup);
      r
  }

  /** The `(chara_id, value)` pairs one character contributes to category `c`, in its dict order. */
  function ItemsOf(id: int, profile: Profile, c: int): seq<(int, string)> {
    if |profile| == 0 then []
    else (if profile[0].0 == c then [(id, profile[0].1)] else []) + ItemsOf(id, profile[1..], c)
  }

  /** The pairs all characters contribute to category `c`, character by character: the reference
      for what `category_data[c]` must hold. */
  function Items(charas: seq<(int, Profile)>, c: int): seq<(int, string)> {
    if |charas| == 0 then []
    else
      var n := |charas| - 1;
      Items(charas[..n], c) + ItemsOf(charas[n].0, charas[n].1, c)
  }

  /** The inner loop `for category, value in chara[1].items()` for one character. */
  function AddProfile(groups: Groups, id: int, profile: Profile): (r: Groups)
    requires WellFormed(groups)
    ensures WellFormed(r)
    ensures forall d :: GroupOf(r, d) == GroupOf(groups, d) + ItemsOf(id, profile, d)
    ensures forall d :: HasGroup(r, d) <==> HasGroup(groups, d) || |ItemsOf(id, profile, d)| > 0
    decreases |profile|
  {
    if |profile| == 0 then groups
    else
      var g := AddItem(groups, profile[0].0, (id, profile[0].1));
      var r := AddProfile(g, id, profile[1..]);
      AddProfileStep(groups, g, r, id, profile);
      r
  }

  /** The first item of a dict appended, then the rest: together they append the whole dict. */
  lemma AddProfileStep(groups: Groups, g: Groups, r: Groups, id: int, profile: Profile)
    requires |profile| > 0
    requires forall d :: GroupOf(g, d) == if d == profile[0].0 then GroupOf(groups, d) + [(id, profile[0].1)] else GroupOf(groups, d)
    requires forall d :: HasGroup(g, d) <==> HasGroup(groups, d) || d == profile[0].0
    requires forall d :: GroupOf(r, d) == GroupOf(g, d) + ItemsOf(id, profile[1..], d)
    requires forall d :: HasGroup(r, d) <==> HasGroup(g, d) || |ItemsOf(id, profile[1..], d)| > 0
    ensures forall d :: GroupOf(r, d) == GroupOf(groups, d) + ItemsOf(id, profile, d)
    ensures forall d :: HasGroup(r, d) <==> HasGroup(groups, d) || |ItemsOf(id, profile, d)| > 0
  {
    forall d
      ensures GroupOf(r, d) == GroupOf(groups, d) + ItemsOf(id, profile, d)
      ensures HasGroup(r, d) <==> HasGroup(groups, d) || |ItemsOf(id, profile, d)| > 0
    {
      AppendSplit(GroupOf(groups, d), GroupOf(g, d), GroupOf(r, d), id, profile, d);
    }
  }

  /** The step of `AddProfileStep` for one category `d`. */
  lemma AppendSplit(before: seq<(int, string)>, mid: seq<(int, string)>, after: seq<(int, string)>, id: int, profile: Profile, d: int)
    requires |profile| > 0
    requires mid == if d == profile[0].0 then before + [(id, profile[0].1)] else before
    requires after == mid + ItemsOf(id, profile[1..], d)
    ensures after == before + ItemsOf(id, profile, d)
  {
    var head: seq<(int, string)> := if profile[0].0 == d then [(id, profile[0].1)] else [];
    assert ItemsOf(id, profile, d) == head + ItemsOf(id, profile[1..], d);
    assert mid == before + head;
  }

  /** The regrouping in `apply_umapyoi_character_profiles`: characters with an empty dict are
      dropped, then every `(category, value)` of every character, in order, is appended to
      `category_data[category]` as `(chara_id, value)`. */
  function Regroup(charas: seq<(int, Profile)>): (r: Groups)
    ensures WellFormed(r)
    ensures forall c :: GroupOf(r, c) == Items(charas, c)
    ensures forall c :: HasGroup(r, c) <==> |Items(charas, c)| > 0
  {
    if |charas| == 0 then []
    else
      var n := |charas| - 1;
      var g := Regroup(charas[..n]);
      if |charas[n].1| == 0 then g else AddProfile(g, charas[n].0, charas[n].1)
  }

  /** The final loop: `import_category(category, data)` for each group, skipping a category whose
      file does not exist. `store` maps each existing category file to its entries. */
  function ApplyGroups(groups: Groups, store: map<int, seq<Entry>>): (r: map<int, seq<Entry>>)
    requires WellFormed(groups)
    ensures r.Keys == store.Keys
    ensures forall c :: c in store && HasGroup(groups, c) ==>
              r[c] == ImportCategory(c, GroupOf(groups, c), store[c]).entries
    ensures forall c :: c in store && !HasGroup(groups, c) ==> r[c] == store[c]
  {
    if |groups| == 0 then store
    else
      var c := groups[0].0;
      var rest := ApplyGroups(groups[1..], store);
      if c in store then rest[c := ImportCategory(c, groups[0].1, store[c]).entries] else rest
  }

  lemma {:induction false} ItemsOfMembership(id: int, profile: Profile, c: int, p: (int, string))
    ensures p in ItemsOf(id, profile, c) <==> p.0 == id && (c, p.1) in profile
  {
    if |profile| > 0 {
      ItemsOfMembership(id, profile[1..], c, p);
      assert profile == [profile[0]] + profile[1..];
    }
  }

  /** A pair `(id, v)` is in the group of category `c` exactly when some character `id` has
      `c ↦ v` in its dict. */
  lemma {:induction false} RegroupMembership(charas: seq<(int, Profile)>, c: int, id: int, v: string)
    ensures (id, v) in GroupOf(Regroup(charas), c) <==>
            exists k :: 0 <= k < |charas| && charas[k].0 == id && (c, v) in charas[k].1
  {
    ItemsMembership(charas, c, id, v);
  }

  lemma {:induction false} ItemsMembership(charas: seq<(int, Profile)>, c: int, id: int, v: string)
    ensures (id, v) in Items(charas, c) <==>
            exists k :: 0 <= k < |charas| && charas[k].0 == id && (c, v) in charas[k].1
  {
    if |charas| > 0 {
      var n := |charas| - 1;
      ItemsMembership(charas[..n], c, id, v);
      ItemsOfMembership(charas[n].0, charas[n].1, c, (id, v));
      assert forall k :: 0 <= k < n ==> charas[..n][k] == charas[k];
      if (id, v) in Items(charas, c) && (id, v) !in ItemsOf(charas[n].0, charas[n].1, c) {
        var k :| 0 <= k < n && charas[..n][k].0 == id && (c, v) in charas[..n][k].1;
        assert charas[k].0 == id && (c, v) in charas[k].1;
      }
    }
  }

  lemma {:induction false} ItemsWithout(charas: seq<(int, Profile)>, k: int, c: int)
    requires 0 <= k < |charas| && |charas[k].1| == 0
    ensures Items(charas, c) == Items(charas[..k] + charas[k + 1..], c)
  {
    var n := |charas| - 1;
    var s := charas[..k] + charas[k + 1..];
    if k == n {
      assert s == charas[..n];
    } else {
      ItemsWithout(charas[..n], k, c);
      assert s[..|s| - 1] == charas[..n][..k] + charas[..n][k + 1..];
      assert s[|s| - 1] == charas[n];
    }
  }

  /** A character with an empty dict contributes nothing: dropping it changes no group. */
  lemma EmptyProfileContributesNothing(charas: seq<(int, Profile)>, k: int)
    requires 0 <= k < |charas| && |charas[k].1| == 0
    ensures forall c :: GroupOf(Regroup(charas), c) == GroupOf(Regroup(charas[..k] + charas[k + 1..]), c)
  {
    forall c ensures GroupOf(Regroup(charas), c) == GroupOf(Regroup(charas[..k] + charas[k + 1..]), c) {
      ItemsWithout(charas, k, c);
    }
  }

  /** Every category that gets a group comes from some character's dict. */
  lemma {:induction false} GroupCategoryHasSource(charas: seq<(int, Profile)>, c: int)
    requires |Items(charas, c)| > 0
    ensures exists k, a :: 0 <= k < |charas| && 0 <= a < |charas[k].1| && charas[k].1[a].0 == c
  {
    var p := Items(charas, c)[0];
    ItemsMembership(charas, c, p.0, p.1);
    var k :| 0 <= k < |charas| && charas[k].0 == p.0 && (c, p.1) in charas[k].1;
    var a :| 0 <= a < |charas[k].1| && charas[k].1[a] == (c, p.1);
  }

  /** The characters as fetched: `pool.map(fetch_chara_data, chara_ids)` keeps the id order. */
  function FetchAll(responses: seq<(int, Option<ApiCharacter>)>): (r: seq<(int, Profile)>)
    ensures |r| == |responses|
    ensures forall k :: 0 <= k < |r| ==> r[k] == FetchCharacter(responses[k].0, responses[k].1)
  {
    seq(|responses|, k requires 0 <= k < |responses| => FetchCharacter(responses[k].0, responses[k].1))
  }

  /** `apply_umapyoi_character_profiles` after the fetches: every category file is imported with
      exactly the pairs the characters contribute to it, in character order; only the seven
      profile categories can change. */
  function ApplyCharacterProfiles(responses: seq<(int, Option<ApiCharacter>)>, store: map<int, seq<Entry>>): (r: map<int, seq<Entry>>)
    ensures r.Keys == store.Keys
    ensures forall c :: c in store ==> r[c] == ImportCategory(c, Items(FetchAll(responses), c), store[c]).entries
    ensures forall c :: c in store && c !in ProfileCategories ==> r[c] == store[c]
  {
    var charas := FetchAll(responses);
    var groups := Regroup(charas);
    var r := ApplyGroups(groups, store);
    forall c | c in store
      ensures r[c] == ImportCategory(c, Items(charas, c), store[c]).entries
      ensures c !in ProfileCategories ==> r[c] == store[c]
    {
      if |Items(charas, c)| > 0 {
        GroupCategoryHasSource(charas, c);
      } else {
        assert Items(charas, c) == [];
        assert ImportCategory(c, [], store[c]).entries == store[c];
      }
    }
    r
  }

  /** Only the seven profile categories get a group, and only from truthy fields. */
  lemma FetchedCategories(responses: seq<(int, Option<ApiCharacter>)>, c: int)
    requires HasGroup(Regroup(FetchAll(responses)), c)
    ensures c in ProfileCategories
    ensures exists k, t :: 0 <= k < |responses| && responses[k].1.Some? && 0 <= t < |ConvertMap|
                           && ConvertMap[t].1 == c && HasText(responses[k].1.value, ConvertMap[t].0)
  {
    var charas := FetchAll(responses);
    GroupCategoryHasSource(charas, c);
    var k, a :| 0 <= k < |charas| && 0 <= a < |charas[k].1| && charas[k].1[a].0 == c;
    assert FromTable(responses[k].1.value, ConvertMap, charas[k].1[a]);
  }
}
