/** `apply_gametora_missions` and `apply_gametora_title_missions`: scraped English mission texts
    merged into the mission text files 66 and 67. */
module Missions {
  import opened Wrappers
  import opened Json
  import opened Text
  import opened Lookup
  import opened Entries

  /** The mission text files both merges rewrite. */
  const MissionFiles: seq<int> := [66, 67]

  /** `for json_file in MISSIONS_JSONS: … data = <merge>(data) …`: every mission file goes
      through `merge`, every other file is kept. */
  function EachMissionFile(files: map<int, seq<Entry>>, merge: seq<Entry> -> seq<Entry>): (r: map<int, seq<Entry>>)
    requires forall f :: f in MissionFiles ==> f in files
    ensures r.Keys == files.Keys
    ensures forall f :: f in MissionFiles ==> r[f] == merge(files[f])
    ensures forall f :: f in files && f !in MissionFiles ==> r[f] == files[f]
  {
    files[66 := merge(files[66])][67 := merge(files[67])]
  }

  /** `source.replace("\n", "").replace("\\n", "")`: real newlines removed first, then the
      two-character escape backslash-n. */
  function Normalise(s: string): (r: string)
    ensures |r| <= |s|
    ensures forall k :: 0 <= k < |r| ==> r[k] != '\n' && r[k] in s
    ensures !IsSubstring("\n", s) && !IsSubstring("\\n", s) ==> r == s
  {
    var once := RemoveAll(s, "\n");
    assert !IsSubstring("\n", s) ==> once == s;
    RemoveAll(once, "\\n")
  }

  /** The replacements are single left-to-right passes, so a normalised source can still hold the
      escape backslash-n: removing the one in the middle of `\\nn` joins the other two into one. */
  lemma NormaliseSinglePass()
    ensures Normalise(['\\', '\\', 'n', 'n']) == ['\\', 'n']
  {
    var s := ['\\', '\\', 'n', 'n'];
    var pat := "\\n";
    NotSubstringOfChar('\n', s);
    assert RemoveAll(s, "\n") == s;
    var tail := ['n'];
    assert !(pat <= tail);
    assert RemoveAll(tail, pat) == [tail[0]] + RemoveAll(tail[1..], pat);
    assert RemoveAll(tail, pat) == tail;
    assert s[1..][2..] == tail;
    assert pat <= s[1..];
    assert RemoveAll(s[1..], pat) == tail;
    assert !(pat <= s);
    assert RemoveAll(s, pat) == [s[0]] + RemoveAll(s[1..], pat);
  }

  /** The text a scraped mission table gives an entry: the entry of its normalised source. */
  function MissionText(missions: map<string, string>, addPeriod: string -> string, e: Entry): Option<string> {
    var key := Normalise(e.source);
    if key in missions then Some(addPeriod(missions[key])) else None
  }

  /** The loop over one mission file: an entry whose normalised source was scraped gets the
      scraped text through `add_period`, keeps its old text as `prev_text` and stops being new;
      every other entry is unchanged. */
  function MergeMissions(entries: seq<Entry>, missions: map<string, string>, addPeriod: string -> string): (r: seq<Entry>)
    ensures |r| == |entries|
    ensures forall i :: 0 <= i < |entries| && Normalise(entries[i].source) in missions ==>
              r[i] == Overwrite(entries[i], addPeriod(missions[Normalise(entries[i].source)]))
    ensures forall i :: 0 <= i < |entries| && Normalise(entries[i].source) !in missions ==> r[i] == entries[i]
  {
    MergeEach(entries, e => MissionText(missions, addPeriod, e))
  }

  /** The merge keeps every entry's `source`, so a second merge with the same table rewrites the
      same entries with the same text; only `prev_text` moves on, to the text the first merge wrote. */
  lemma MergeMissionsTwice(entries: seq<Entry>, missions: map<string, string>, addPeriod: string -> string)
    ensures var once := MergeMissions(entries, missions, addPeriod);
            var twice := MergeMissions(once, missions, addPeriod);
            |twice| == |entries|
            && forall i :: 0 <= i < |entries| ==>
                 (Normalise(entries[i].source) in missions ==> twice[i] == once[i].(prevText := Some(once[i].text)))
                 && (Normalise(entries[i].source) !in missions ==> twice[i] == entries[i])
  {
    MergeEachTwice(entries, e => MissionText(missions, addPeriod, e));
  }

  /** `apply_gametora_missions` over the loaded files 66 and 67: an empty scrape changes nothing;
      otherwise every file goes through the merge with the same table. */
  function ApplyMissions(missions: map<string, string>, files: map<int, seq<Entry>>, addPeriod: string -> string): (r: map<int, seq<Entry>>)
    requires forall f :: f in MissionFiles ==> f in files
    ensures r.Keys == files.Keys
    ensures |missions| == 0 ==> r == files
    ensures forall f :: f in files && f !in MissionFiles ==> r[f] == files[f]
    ensures |missions| > 0 ==> forall f :: f in MissionFiles ==> r[f] == MergeMissions(files[f], missions, addPeriod)
    ensures |missions| > 0 ==> forall f :: f in MissionFiles ==> |r[f]| == |files[f]|
    ensures |missions| > 0 ==> forall f, i :: f in MissionFiles && 0 <= i < |files[f]| ==>
              (Normalise(files[f][i].source) in missions ==>
                    r[f][i] == Overwrite(files[f][i], addPeriod(missions[Normalise(files[f][i].source)])))
              && (Normalise(files[f][i].source) !in missions ==> r[f][i] == files[f][i])
  {
    if |missions| == 0 then files
    else EachMissionFile(files, entries => MergeMissions(entries, missions, addPeriod))
  }

  // ---- Title missions --------------------------------------------------------------------

  /** `str(row[0]).startswith("20")`: the id filter of the expansion. */
  predicate Reserved(id: string)
    ensures Reserved(id) <==> |id| >= 2 && id[0] == '2' && id[1] == '0'
  {
    "20" <= id
  }

  /** A list of `(id, text)` pairs is the item list of a dict: no id occurs twice. The scraped
      `mission_data` is given this way, in the dict's iteration order. */
  predicate IsDictItems(items: seq<(string, string)>) {
    forall i, j :: 0 <= i < j < |items| ==> items[i].0 != items[j].0
  }

  /** The pair `(str(row), text)` comes from item `i` and one of the mission rows its id maps to. */
  predicate FromItem(items: seq<(string, string)>, rowsOf: string -> seq<int>, c: (string, string)) {
    exists i, j :: 0 <= i < |items| && 0 <= j < |rowsOf(items[i].0)|
                   && c == (Decimal(rowsOf(items[i].0)[j]), items[i].1)
  }

  /** The pairs `(str(row[0]), mission_data[key])` in the order the expansion loop meets them,
      with `rowsOf(key)` the mission ids the query returns for a scraped title id. */
  function Candidates(items: seq<(string, string)>, rowsOf: string -> seq<int>): seq<(string, string)> {
    if |items| == 0 then []
    else
      var n := |items| - 1;
      var rows := rowsOf(items[n].0);
      Candidates(items[..n], rowsOf) + seq(|rows|, j requires 0 <= j < |rows| => (Decimal(rows[j]), items[n].1))
  }

  /** Every candidate comes from a scraped item and one of its rows, and every such pair is a
      candidate. */
  lemma {:induction false} CandidatesSpec(items: seq<(string, string)>, rowsOf: string -> seq<int>)
    ensures forall t :: 0 <= t < |Candidates(items, rowsOf)| ==> FromItem(items, rowsOf, Candidates(items, rowsOf)[t])
    ensures forall i, j :: 0 <= i < |items| && 0 <= j < |rowsOf(items[i].0)| ==>
              (Decimal(rowsOf(items[i].0)[j]), items[i].1) in Candidates(items, rowsOf)
  {
    if |items| > 0 {
      var n := |items| - 1;
      var rows := rowsOf(items[n].0);
      var front := Candidates(items[..n], rowsOf);
      var last := seq(|rows|, j requires 0 <= j < |rows| => (Decimal(rows[j]), items[n].1));
      assert Candidates(items, rowsOf) == front + last;
      CandidatesSpec(items[..n], rowsOf);
      CandidatesStep(items, rowsOf, front, last);
    }
  }

  lemma CandidatesStep(items: seq<(string, string)>, rowsOf: string -> seq<int>, front: seq<(string, string)>, last: seq<(string, string)>)
    requires |items| > 0
    requires var n := |items| - 1;
             var rows := rowsOf(items[n].0);
             |last| == |rows| && forall j :: 0 <= j < |rows| ==> last[j] == (Decimal(rows[j]), items[n].1)
    requires forall t :: 0 <= t < |front| ==> FromItem(items[..|items| - 1], rowsOf, front[t])
    requires forall i, j :: 0 <= i < |items| - 1 && 0 <= j < |rowsOf(items[i].0)| ==>
               (Decimal(rowsOf(items[i].0)[j]), items[i].1) in front
    ensures forall t :: 0 <= t < |front + last| ==> FromItem(items, rowsOf, (front + last)[t])
    ensures forall i, j :: 0 <= i < |items| && 0 <= j < |rowsOf(items[i].0)| ==>
              (Decimal(rowsOf(items[i].0)[j]), items[i].1) in front + last
  {
    var n := |items| - 1;
    var r := front + last;
    forall t | 0 <= t < |r| ensures FromItem(items, rowsOf, r[t]) {
      if t < |front| {
        assert r[t] == front[t];
        var i, j :| 0 <= i < n && 0 <= j < |rowsOf(items[..n][i].0)|
                    && front[t] == (Decimal(rowsOf(items[..n][i].0)[j]), items[..n][i].1);
        assert items[..n][i] == items[i];
      } else {
        assert r[t] == last[t - |front|];
        assert r[t] == (Decimal(rowsOf(items[n].0)[t - |front|]), items[n].1);
      }
    }
    forall i, j | 0 <= i < |items| && 0 <= j < |rowsOf(items[i].0)|
      ensures (Decimal(rowsOf(items[i].0)[j]), items[i].1) in r
    {
      if i < n {
        assert (Decimal(rowsOf(items[i].0)[j]), items[i].1) in front;
      } else {
        assert last[j] in r;
      }
    }
  }

  function IdOf(c: (string, string)): string { c.0 }
  function SomeText(c: (string, string)): Option<string> { Some(c.1) }

  /** The candidate's value unless its id is reserved. */
  function Unreserved(c: (string, string)): Option<string> {
    if Reserved(c.0) then None else Some(c.1)
  }

  /** `new_dict`: mission ids found for the scraped title ids, reserved ids left out. */
  function Expansion(items: seq<(string, string)>, rowsOf: string -> seq<int>): map<string, string> {
    Collect(Candidates(items, rowsOf), IdOf, Unreserved)
  }

  /** Candidate `t` is the last one, in loop order, that writes `new_dict[k]`. */
  predicate LastCandidate(cs: seq<(string, string)>, t: int, k: string)
    requires 0 <= t < |cs|
  {
    cs[t].0 == k && forall u :: t < u < |cs| ==> cs[u].0 != k
  }

  /** No expanded id is reserved, and each takes the text of the last candidate with that id,
      which is the text of a scraped item one of whose rows it is. */
  lemma ExpansionSources(items: seq<(string, string)>, rowsOf: string -> seq<int>)
    ensures forall k :: k in Expansion(items, rowsOf) ==> !Reserved(k) && FromItem(items, rowsOf, (k, Expansion(items, rowsOf)[k]))
    ensures forall k :: k in Expansion(items, rowsOf) ==>
              exists t :: 0 <= t < |Candidates(items, rowsOf)| && LastCandidate(Candidates(items, rowsOf), t, k)
                          && Candidates(items, rowsOf)[t].1 == Expansion(items, rowsOf)[k]
  {
    var cs := Candidates(items, rowsOf);
    var m := Expansion(items, rowsOf);
    forall k | k in m
      ensures !Reserved(k) && FromItem(items, rowsOf, (k, m[k]))
      ensures exists t :: 0 <= t < |cs| && LastCandidate(cs, t, k) && cs[t].1 == m[k]
    {
      var t := ExpandedFrom(cs, m, k);
      CandidateFromItem(items, rowsOf, t);
    }
  }

  /** Candidate `t` comes from a scraped item and one of its rows. */
  lemma CandidateFromItem(items: seq<(string, string)>, rowsOf: string -> seq<int>, t: int)
    requires 0 <= t < |Candidates(items, rowsOf)|
    ensures FromItem(items, rowsOf, Candidates(items, rowsOf)[t])
  {
    CandidatesSpec(items, rowsOf);
  }

  /** Every row id of a scraped item that does not start with "20" is expanded. */
  lemma ExpansionCovers(items: seq<(string, string)>, rowsOf: string -> seq<int>)
    ensures forall i, j :: 0 <= i < |items| && 0 <= j < |rowsOf(items[i].0)| && !Reserved(Decimal(rowsOf(items[i].0)[j])) ==>
              Decimal(rowsOf(items[i].0)[j]) in Expansion(items, rowsOf)
  {
    var cs := Candidates(items, rowsOf);
    var m := Expansion(items, rowsOf);
    CandidatesSpec(items, rowsOf);
    forall i, j | 0 <= i < |items| && 0 <= j < |rowsOf(items[i].0)| && !Reserved(Decimal(rowsOf(items[i].0)[j]))
      ensures Decimal(rowsOf(items[i].0)[j]) in m
    {
      var c := (Decimal(rowsOf(items[i].0)[j]), items[i].1);
      var t :| 0 <= t < |cs| && cs[t] == c;
      assert Unreserved(cs[t]).Some?;
    }
  }

  /** An expanded id is unreserved and takes the text of the last candidate with that id. */
  lemma ExpandedFrom(cs: seq<(string, string)>, m: map<string, string>, k: string) returns (t: nat)
    requires m == Collect(cs, IdOf, Unreserved) && k in m
    ensures !Reserved(k) && t < |cs| && cs[t] == (k, m[k]) && LastCandidate(cs, t, k)
  {
    t := CollectWitness(cs, IdOf, Unreserved, k);
    assert cs[t] == (k, m[k]);
    forall u | t < u < |cs| ensures cs[u].0 != k {
      assert !Contributes(cs, IdOf, Unreserved, u, k);
    }
  }

  /** Some scraped item is `(k, v)`. */
  predicate ScrapedAs(items: seq<(string, string)>, k: string, v: string) {
    exists i :: 0 <= i < |items| && items[i] == (k, v)
  }

  /** The scraped dict itself, `{id: text}` over its items in iteration order. */
  function Scraped(items: seq<(string, string)>): (m: map<string, string>)
    ensures forall i :: 0 <= i < |items| ==> items[i].0 in m
    ensures forall k :: k in m ==> ScrapedAs(items, k, m[k])
  {
    var m := Collect(items, IdOf, SomeText);
    ScrapedSpec(items, m);
    m
  }

  lemma ScrapedSpec(items: seq<(string, string)>, m: map<string, string>)
    requires m == Collect(items, IdOf, SomeText)
    ensures forall k :: k in m ==> ScrapedAs(items, k, m[k])
  {
    forall k | k in m ensures ScrapedAs(items, k, m[k]) {
      var i := CollectWitness(items, IdOf, SomeText, k);
      assert items[i] == (k, m[k]);
      assert ScrapedAs(items, k, m[k]);
    }
  }

  /** In a dict's item list every item's text is the dict's value for its id. */
  lemma ScrapedDict(items: seq<(string, string)>)
    requires IsDictItems(items)
    ensures forall i :: 0 <= i < |items| ==> Scraped(items)[items[i].0] == items[i].1
  {
    var m := Scraped(items);
    forall i | 0 <= i < |items| ensures m[items[i].0] == items[i].1 {
      var j :| 0 <= j < |items| && items[j] == (items[i].0, m[items[i].0]);
      assert i == j;
    }
  }

  /** `k` is one of the scraped title ids. */
  predicate ScrapedId(items: seq<(string, string)>, k: string) {
    exists i :: 0 <= i < |items| && items[i].0 == k
  }

  /** `mission_data.update(new_dict)`: the scraped dict with the expansion laid over it. A key is
      in the table iff it was scraped or expanded, and an expanded key takes the expansion's text. */
  function TitleTable(items: seq<(string, string)>, rowsOf: string -> seq<int>): map<string, string>
    requires IsDictItems(items)
  {
    Scraped(items) + Expansion(items, rowsOf)
  }

  /** A key is in the title table iff it was scraped or expanded; an expanded key takes the
      expansion's text and any other key keeps the text it was scraped with. */
  lemma TitleTableSpec(items: seq<(string, string)>, rowsOf: string -> seq<int>)
    requires IsDictItems(items)
    ensures forall k :: k in TitleTable(items, rowsOf) <==> k in Expansion(items, rowsOf) || ScrapedId(items, k)
    ensures forall k :: k in Expansion(items, rowsOf) ==> k in TitleTable(items, rowsOf) && TitleTable(items, rowsOf)[k] == Expansion(items, rowsOf)[k]
    ensures forall k :: k in TitleTable(items, rowsOf) && k !in Expansion(items, rowsOf) ==>
              ScrapedAs(items, k, TitleTable(items, rowsOf)[k])
  {
    var scraped := Scraped(items);
    var expansion := Expansion(items, rowsOf);
    var table := TitleTable(items, rowsOf);
    assert table == scraped + expansion;
    Overlay(items, scraped, expansion, table);
  }

  /** The scraped dict updated with any dict: the update's keys take its values, and every other
      key is a scraped one with its scraped text. */
  lemma Overlay(items: seq<(string, string)>, scraped: map<string, string>, update: map<string, string>, m: map<string, string>)
    requires scraped == Scraped(items)
    requires m == scraped + update
    ensures forall k :: k in m <==> k in update || ScrapedId(items, k)
    ensures forall k :: k in update ==> m[k] == update[k]
    ensures forall k :: k in m && k !in update ==> ScrapedAs(items, k, m[k])
  {
    ScrapedIds(items, scraped);
  }

  lemma ScrapedIds(items: seq<(string, string)>, scraped: map<string, string>)
    requires forall i :: 0 <= i < |items| ==> items[i].0 in scraped
    requires forall k :: k in scraped ==> ScrapedAs(items, k, scraped[k])
    ensures forall k :: ScrapedId(items, k) <==> k in scraped
  {
    forall k ensures ScrapedId(items, k) <==> k in scraped {
      if ScrapedId(items, k) {
        var i :| 0 <= i < |items| && items[i].0 == k;
        assert items[i].0 in scraped;
      }
      if k in scraped {
        var i :| 0 <= i < |items| && items[i] == (k, scraped[k]);
        assert items[i].0 == k;
      }
    }
  }

  /** `mission_data.get(str(key[1]))` is truthy. */
  predicate Hits(table: map<string, string>, key: (Scalar, Scalar)) {
    PyStr(key.1) in table && |table[PyStr(key.1)]| > 0
  }

  /** The key the inner `for key in keys … break` loop stops at. */
  function TitleHit(keyPairs: seq<(Scalar, Scalar)>, table: map<string, string>): (r: Option<nat>)
    ensures r.Some? ==> r.value < |keyPairs| && Hits(table, keyPairs[r.value])
    ensures r.Some? ==> forall l :: 0 <= l < r.value ==> !Hits(table, keyPairs[l])
    ensures r.None? ==> forall l :: 0 <= l < |keyPairs| ==> !Hits(table, keyPairs[l])
  {
    FirstIndex(keyPairs, k => Hits(table, k))
  }

  /** The text a title-mission table gives an entry: the one of its first hitting key. */
  function TitleText(table: map<string, string>, addPeriod: string -> string, e: Entry): Option<string> {
    match TitleHit(e.keyPairs, table)
    case Some(j) => Some(addPeriod(table[PyStr(e.keyPairs[j].1)]))
    case None => None
  }

  /** The loop over one mission file: an entry is rewritten at most once, with the text of the
      first of its keys, in key order, whose `str(key[1])` has a truthy text; an entry with no such
      key is unchanged. */
  function MergeTitleMissions(entries: seq<Entry>, table: map<string, string>, addPeriod: string -> string): (r: seq<Entry>)
    ensures |r| == |entries|
    ensures forall i, j :: 0 <= i < |entries| && 0 <= j < |entries[i].keyPairs| && Hits(table, entries[i].keyPairs[j])
                           && (forall l :: 0 <= l < j ==> !Hits(table, entries[i].keyPairs[l])) ==>
              r[i] == Overwrite(entries[i], addPeriod(table[PyStr(entries[i].keyPairs[j].1)]))
    ensures forall i :: 0 <= i < |entries| && (forall j :: 0 <= j < |entries[i].keyPairs| ==> !Hits(table, entries[i].keyPairs[j])) ==>
              r[i] == entries[i]
  {
    var r := MergeEach(entries, e => TitleText(table, addPeriod, e));
    forall i, j | 0 <= i < |entries| && 0 <= j < |entries[i].keyPairs| && Hits(table, entries[i].keyPairs[j])
                  && (forall l :: 0 <= l < j ==> !Hits(table, entries[i].keyPairs[l]))
      ensures TitleHit(entries[i].keyPairs, table) == Some(j)
    {
      TitleHitFirst(entries[i].keyPairs, table, j);
    }
    r
  }

  /** The merge keeps every entry's keys, so a second merge with the same table rewrites the same
      entries with the same text; only `prev_text` moves on, to the text the first merge wrote. */
  lemma MergeTitleMissionsTwice(entries: seq<Entry>, table: map<string, string>, addPeriod: string -> string)
    ensures var once := MergeTitleMissions(entries, table, addPeriod);
            var twice := MergeTitleMissions(once, table, addPeriod);
            |twice| == |entries|
            && forall i :: 0 <= i < |entries| ==>
                 (TitleHit(entries[i].keyPairs, table).Some? ==> twice[i] == once[i].(prevText := Some(once[i].text)))
                 && (TitleHit(entries[i].keyPairs, table).None? ==> twice[i] == entries[i])
  {
    MergeEachTwice(entries, e => TitleText(table, addPeriod, e));
  }

  /** The search stops at the first key that hits. */
  lemma TitleHitFirst(keyPairs: seq<(Scalar, Scalar)>, table: map<string, string>, j: int)
    requires 0 <= j < |keyPairs| && Hits(table, keyPairs[j])
    requires forall l :: 0 <= l < j ==> !Hits(table, keyPairs[l])
    ensures TitleHit(keyPairs, table) == Some(j)
  {
  }

  /** `apply_gametora_title_missions` over the loaded files 66 and 67: an empty scrape changes
      nothing; otherwise every file goes through the merge with the expanded table. */
  function ApplyTitleMissions(items: seq<(string, string)>, rowsOf: string -> seq<int>, files: map<int, seq<Entry>>, addPeriod: string -> string): (r: map<int, seq<Entry>>)
    requires IsDictItems(items)
    requires forall f :: f in MissionFiles ==> f in files
    ensures r.Keys == files.Keys
    ensures |items| == 0 ==> r == files
    ensures forall f :: f in files && f !in MissionFiles ==> r[f] == files[f]
    ensures |items| > 0 ==> forall f :: f in MissionFiles ==>
              r[f] == MergeTitleMissions(files[f], TitleTable(items, rowsOf), addPeriod)
  {
    if |items| == 0 then files
    else
      var table := TitleTable(items, rowsOf);
      EachMissionFile(files, entries => MergeTitleMissions(entries, table, addPeriod))
  }

  /** No id the expansion adds to the table starts with "20": such an id is in the table only when
      it was scraped, and then keeps its scraped text. */
  lemma ReservedNotExpanded(items: seq<(string, string)>, rowsOf: string -> seq<int>, k: string)
    requires IsDictItems(items) && Reserved(k) && k in TitleTable(items, rowsOf)
    ensures ScrapedAs(items, k, TitleTable(items, rowsOf)[k])
  {
    ExpansionSources(items, rowsOf);
    TitleTableSpec(items, rowsOf);
  }
}
