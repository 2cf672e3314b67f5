/** `apply_gametora_skills` and `fetch_skill_translations`: English skill names and descriptions
    from GameTora's skill list, merged into text categories 47/147 (names) and 48 (descriptions). */
module Skills {
  import opened Wrappers
  import opened Json
  import opened Lookup
  import opened Entries

  /** One row of GameTora's skill list. `nameEn` and `descEn` are None when the field is absent or null. */
  datatype GtSkill = GtSkill(id: Scalar, nameJa: string, nameEn: Option<string>, descEn: Option<string>)

  /** `data.get(field)` when it is truthy, else None. */
  function TruthyText(s: Option<string>): Option<string> {
    if s.Some? && |s.value| > 0 then s else None
  }

  function NameJa(x: GtSkill): string { x.nameJa }
  function NameEn(x: GtSkill): Option<string> { TruthyText(x.nameEn) }
  function SkillKey(x: GtSkill): Scalar { x.id }
  function DescEn(x: GtSkill): Option<string> { TruthyText(x.descEn) }

  /** Row `i` is the last row that names `k` in Japanese and has a truthy English name. */
  predicate LastNamed(rows: seq<GtSkill>, i: int, k: string)
    requires 0 <= i < |rows|
  {
    rows[i].nameJa == k && TruthyText(rows[i].nameEn).Some?
    && forall j :: i < j < |rows| ==> !(rows[j].nameJa == k && TruthyText(rows[j].nameEn).Some?)
  }

  /** Row `i` is the last row with id `k` and a truthy English description. */
  predicate LastDescribed(rows: seq<GtSkill>, i: int, k: Scalar)
    requires 0 <= i < |rows|
  {
    rows[i].id == k && TruthyText(rows[i].descEn).Some?
    && forall j :: i < j < |rows| ==> !(rows[j].id == k && TruthyText(rows[j].descEn).Some?)
  }

  /** `gt_name_dict`: Japanese name to English name, over the rows with a truthy `name_en`; the
      last such row with a given Japanese name wins. */
  function NameTable(rows: seq<GtSkill>): (m: map<string, string>)
    ensures forall i :: 0 <= i < |rows| && TruthyText(rows[i].nameEn).Some? ==> rows[i].nameJa in m
    ensures forall k :: k in m ==>
              exists i :: 0 <= i < |rows| && LastNamed(rows, i, k) && rows[i].nameEn == Some(m[k])
  {
    var m := Collect(rows, NameJa, NameEn);
    NameTableLast(rows, m);
    m
  }

  lemma NameTableLast(rows: seq<GtSkill>, m: map<string, string>)
    requires m == Collect(rows, NameJa, NameEn)
    ensures forall k :: k in m ==>
              exists i :: 0 <= i < |rows| && LastNamed(rows, i, k) && rows[i].nameEn == Some(m[k])
  {
    forall k | k in m
      ensures exists i :: 0 <= i < |rows| && LastNamed(rows, i, k) && rows[i].nameEn == Some(m[k])
    {
      var i := CollectWitness(rows, NameJa, NameEn, k);
      forall j | i < j < |rows| ensures !(rows[j].nameJa == k && TruthyText(rows[j].nameEn).Some?) {
        assert !Contributes(rows, NameJa, NameEn, j, k);
      }
    }
  }

  /** `gt_desc_dict`: skill id to English description, over the rows with a truthy `desc_en`; the
      last such row with a given id wins. */
  function DescTable(rows: seq<GtSkill>): (m: map<Scalar, string>)
    ensures forall i :: 0 <= i < |rows| && TruthyText(rows[i].descEn).Some? ==> rows[i].id in m
    ensures forall k :: k in m ==>
              exists i :: 0 <= i < |rows| && LastDescribed(rows, i, k) && rows[i].descEn == Some(m[k])
  {
    var m := Collect(rows, SkillKey, DescEn);
    DescTableLast(rows, m);
    m
  }

  lemma DescTableLast(rows: seq<GtSkill>, m: map<Scalar, string>)
    requires m == Collect(rows, SkillKey, DescEn)
    ensures forall k :: k in m ==>
              exists i :: 0 <= i < |rows| && LastDescribed(rows, i, k) && rows[i].descEn == Some(m[k])
  {
    forall k | k in m
      ensures exists i :: 0 <= i < |rows| && LastDescribed(rows, i, k) && rows[i].descEn == Some(m[k])
    {
      var i := CollectWitness(rows, SkillKey, DescEn, k);
      forall j | i < j < |rows| ensures !(rows[j].id == k && TruthyText(rows[j].descEn).Some?) {
        assert !Contributes(rows, SkillKey, DescEn, j, k);
      }
    }
  }

  /** The skill-name loop over one name file: an entry whose `source` (the Japanese name) is in
      the table gets the English name, keeps its old text as `prev_text` and stops being new;
      every other entry is unchanged. */
  function MergeSkillNames(entries: seq<Entry>, names: map<string, string>): (r: seq<Entry>)
    ensures |r| == |entries|
    ensures forall i :: 0 <= i < |entries| && entries[i].source in names ==>
              r[i] == Overwrite(entries[i], names[entries[i].source])
    ensures forall i :: 0 <= i < |entries| && entries[i].source !in names ==> r[i] == entries[i]
  {
    MergeEach(entries, (e: Entry) => if e.source in names then Some(names[e.source]) else None)
  }

  /** A second name merge with the same table sets the same texts and flags; only `prev_text`
      moves on, to the text the first merge wrote. */
  lemma MergeSkillNamesTwice(entries: seq<Entry>, names: map<string, string>)
    ensures var once := MergeSkillNames(entries, names);
            var twice := MergeSkillNames(once, names);
            forall i :: 0 <= i < |entries| ==>
              twice[i].text == once[i].text && twice[i].isNew == once[i].isNew
              && (entries[i].source in names ==> twice[i].prevText == Some(once[i].text))
              && (entries[i].source !in names ==> twice[i] == entries[i])
  {
  }

  /** `keys = json.loads(entry['keys'])` followed by `keys[0]` raised IndexError on entry `entry`. */
  datatype DescError = IndexError(entry: nat)

  /** The id a description entry is looked up by: `keys[0][1]`. */
  function SkillId(e: Entry): Scalar
    requires |e.keyPairs| > 0
  {
    e.keyPairs[0].1
  }

  /** The skill-description loop over file 48. An entry with no keys makes `keys[0]` raise, so the
      loop stops at the first such entry and the file is not saved. Otherwise an entry whose
      `keys[0][1]` is in the table gets `add_period` of the description, keeps its old text as
      `prev_text` and stops being new; every other entry is unchanged. */
  function MergeSkillDescriptions(entries: seq<Entry>, descs: map<Scalar, string>, addPeriod: string -> string): (r: Result<seq<Entry>, DescError>)
    ensures r.Failure? <==> exists i :: 0 <= i < |entries| && |entries[i].keyPairs| == 0
    ensures r.Failure? ==> r.error.entry < |entries| && |entries[r.error.entry].keyPairs| == 0
                           && forall j :: 0 <= j < r.error.entry ==> |entries[j].keyPairs| > 0
    ensures r.Success? ==> |r.value| == |entries|
    ensures r.Success? ==> forall i :: 0 <= i < |entries| && SkillId(entries[i]) in descs ==>
              r.value[i] == Overwrite(entries[i], addPeriod(descs[SkillId(entries[i])]))
    ensures r.Success? ==> forall i :: 0 <= i < |entries| && SkillId(entries[i]) !in descs ==>
              r.value[i] == entries[i]
  {
    match FirstIndex(entries, (e: Entry) => |e.keyPairs| == 0)
    case Some(i) => Failure(IndexError(i))
    case None =>
      Success(MergeEach(entries, (e: Entry) =>
        if |e.keyPairs| > 0 && SkillId(e) in descs then Some(addPeriod(descs[SkillId(e)])) else None))
  }

  /** The merge keeps every entry's keys, so when the first merge of the description file
      succeeds a second one with the same table succeeds too and rewrites the same entries with the
      same text; only `prev_text` moves on, to the text the first merge wrote. */
  lemma MergeSkillDescriptionsTwice(entries: seq<Entry>, descs: map<Scalar, string>, addPeriod: string -> string)
    ensures var once := MergeSkillDescriptions(entries, descs, addPeriod);
            once.Success? ==>
              var twice := MergeSkillDescriptions(once.value, descs, addPeriod);
              twice.Success? && |twice.value| == |entries|
              && forall i :: 0 <= i < |entries| ==>
                   (SkillId(entries[i]) in descs ==> twice.value[i] == once.value[i].(prevText := Some(once.value[i].text)))
                   && (SkillId(entries[i]) !in descs ==> twice.value[i] == entries[i])
  {
    var once := MergeSkillDescriptions(entries, descs, addPeriod);
    if once.Success? {
      assert forall i :: 0 <= i < |entries| ==> once.value[i].keyPairs == entries[i].keyPairs;
    }
  }

  /** `fetch_skill_translations`: file 47 as a `source → text` dict; a later entry with the same
      source wins. */
  function SkillTranslations(entries: seq<Entry>): (m: map<string, string>)
    ensures forall i :: 0 <= i < |entries| ==> entries[i].source in m
    ensures forall k :: k in m ==>
              exists i :: 0 <= i < |entries| && entries[i].source == k && entries[i].text == m[k]
                          && forall j :: i < j < |entries| ==> entries[j].source != k
  {
    Collect(entries, (e: Entry) => e.source, (e: Entry) => Some(e.text))
  }

  /** The skill-name files and the skill-description file. */
  const NameFiles: seq<int> := [47, 147]
  const DescFile: int := 48

  /** `apply_gametora_skills` once the skill list is downloaded: both name files are merged and
      saved first; the description file is then merged, or, when one of its entries has no keys,
      left as it was and the error reported. Every other file is kept. */
  function ApplyGametoraSkills(rows: seq<GtSkill>, files: map<int, seq<Entry>>, addPeriod: string -> string): (r: (map<int, seq<Entry>>, Option<DescError>))
    requires 47 in files && 147 in files && 48 in files
    ensures r.0.Keys == files.Keys
    ensures forall f :: f in NameFiles ==> r.0[f] == MergeSkillNames(files[f], NameTable(rows))
    ensures r.1.None? <==> forall i :: 0 <= i < |files[DescFile]| ==> |files[DescFile][i].keyPairs| > 0
    ensures r.1.None? ==> r.0[DescFile] == MergeSkillDescriptions(files[DescFile], DescTable(rows), addPeriod).value
    ensures r.1.Some? ==> r.0[DescFile] == files[DescFile]
    ensures forall f :: f in files && f !in NameFiles && f != DescFile ==> r.0[f] == files[f]
  {
    var names := NameTable(rows);
    var named := files[47 := MergeSkillNames(files[47], names)][147 := MergeSkillNames(files[147], names)];
    match MergeSkillDescriptions(files[48], DescTable(rows), addPeriod)
    case Success(d) => (named[48 := d], None)
    case Failure(e) => (named, Some(e))
  }
}
