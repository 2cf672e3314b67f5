/** `import_category`: copy `(id, value)` pairs into the entries of one text category whose raw
    keys string mentions `[category, id]`. */
module Category {
  import opened Wrappers
  import opened Json
  import opened Text
  import opened Lookup
  import opened Entries

  /** A numeral holds no comma. */
  lemma NumeralHasNoComma(s: string)
    requires IsNumeral(s)
    ensures forall k :: 0 <= k < |s| ==> s[k] != ','
  {
    forall k | 0 <= k < |s| ensures s[k] != ',' {
      if k > 0 && s[0] == '-' {
        assert s[k] == s[1..][k - 1];
      }
    }
  }

  /** The f-string `f"[{category}, {chara_id}]"` searched for in each entry's raw keys: bracketed,
      with its only comma and a space right after the category's numeral; `KeyStringLayout`
      says which numerals appear. */
  function KeyString(category: int, id: int): (r: string)
    ensures |r| == |Decimal(category)| + |Decimal(id)| + 4
    ensures r[0] == '[' && r[|r| - 1] == ']'
    ensures r[|Decimal(category)| + 1] == ',' && r[|Decimal(category)| + 2] == ' '
    ensures forall k :: 0 <= k < |r| && r[k] == ',' ==> k == |Decimal(category)| + 1
  {
    var c := Decimal(category);
    var i := Decimal(id);
    var r := "[" + c + ", " + i + "]";
    NumeralHasNoComma(c);
    NumeralHasNoComma(i);
    assert forall k :: 1 <= k < |c| + 1 ==> r[k] == c[k - 1];
    assert forall k :: |c| + 3 <= k < |r| - 1 ==> r[k] == i[k - |c| - 3];
    r
  }

  /** The key holds the category's numeral between the bracket and the comma, and the id's
      numeral between the space and the closing bracket. */
  lemma KeyStringLayout(category: int, id: int)
    ensures var r := KeyString(category, id);
            r[1..|Decimal(category)| + 1] == Decimal(category)
            && r[|Decimal(category)| + 3..|r| - 1] == Decimal(id)
  {
    var c := Decimal(category);
    var i := Decimal(id);
    var r := KeyString(category, id);
    assert r == "[" + c + ", " + i + "]";
    assert r[1..|c| + 1] == c;
    assert r[|c| + 3..|r| - 1] == i;
  }

  /** A bracketed pair of numerals splits back into its two numerals. */
  lemma SplitKey(c1: string, a1: string, c2: string, a2: string)
    requires IsNumeral(c1) && IsNumeral(a1) && IsNumeral(c2) && IsNumeral(a2)
    requires "[" + c1 + ", " + a1 + "]" == "[" + c2 + ", " + a2 + "]"
    ensures c1 == c2 && a1 == a2
  {
    var s := "[" + c1 + ", " + a1 + "]";
    var t := "[" + c2 + ", " + a2 + "]";
    assert s[|c1| + 1] == ',' && t[|c2| + 1] == ',';
    NumeralHasNoComma(c1);
    NumeralHasNoComma(c2);
    if |c1| != |c2| {
      assert false;
    }
    assert c1 == s[1..|c1| + 1];
    assert c2 == t[1..|c2| + 1];
    assert a1 == s[|c1| + 3..|s| - 1];
    assert a2 == t[|c2| + 3..|t| - 1];
  }

  /** Different category/id pairs give different key strings, so a key names exactly one pair. */
  lemma KeyStringInjective(c1: int, a: int, c2: int, b: int)
    requires KeyString(c1, a) == KeyString(c2, b)
    ensures c1 == c2 && a == b
  {
    SplitKey(Decimal(c1), Decimal(a), Decimal(c2), Decimal(b));
    DecimalInjective(c1, c2);
    DecimalInjective(a, b);
  }

  /** The entry a pair `(id, _)` lands on: the first, in file order, whose raw keys string contains
      the key as a substring. None when no entry mentions the key. */
  function Target(category: int, id: int, entries: seq<Entry>): (r: Option<nat>)
    ensures r.Some? ==> r.value < |entries| && IsSubstring(KeyString(category, id), entries[r.value].keys)
    ensures r.Some? ==> forall j :: 0 <= j < r.value ==> !IsSubstring(KeyString(category, id), entries[j].keys)
    ensures r.None? ==> forall j :: 0 <= j < |entries| ==> !IsSubstring(KeyString(category, id), entries[j].keys)
  {
    FirstIndex(entries, (e: Entry) => IsSubstring(KeyString(category, id), e.keys))
  }

  /** Only the raw keys strings decide where a pair lands. */
  lemma TargetDependsOnKeys(category: int, id: int, a: seq<Entry>, b: seq<Entry>)
    requires |a| == |b|
    requires forall j :: 0 <= j < |a| ==> a[j].keys == b[j].keys
    ensures Target(category, id, a) == Target(category, id, b)
  {
    FirstIndexAgrees(a, b, (e: Entry) => IsSubstring(KeyString(category, id), e.keys));
  }

  /** The state of `json_data` during the loop, with the keys warned about so far. */
  datatype Import = Import(entries: seq<Entry>, warnings: seq<string>)

  /** One iteration of the outer loop: write `value.strip()` into the target entry and clear its
      `new` flag, or warn about the key when no entry mentions it. */
  function ImportPair(category: int, pair: (int, string), st: Import): (r: Import)
    ensures |r.entries| == |st.entries|
    ensures Target(category, pair.0, st.entries).None? ==>
              r.entries == st.entries && r.warnings == st.warnings + [KeyString(category, pair.0)]
    ensures Target(category, pair.0, st.entries).Some? ==>
              var i := Target(category, pair.0, st.entries).value;
              r.warnings == st.warnings
              && r.entries == st.entries[i := st.entries[i].(text := Strip(pair.1), isNew := false)]
  {
    match Target(category, pair.0, st.entries)
    case None => Import(st.entries, st.warnings + [KeyString(category, pair.0)])
    case Some(i) => Import(st.entries[i := st.entries[i].(text := Strip(pair.1), isNew := false)], st.warnings)
  }

  /** `import_category(category, data)` applied to the loaded file `entries`: the pairs are
      processed in order. Only `text` and `new` of an entry can change. */
  function ImportCategory(category: int, data: seq<(int, string)>, entries: seq<Entry>): (r: Import)
    ensures |r.entries| == |entries|
    ensures forall j :: 0 <= j < |entries| ==>
              r.entries[j] == entries[j].(text := r.entries[j].text, isNew := r.entries[j].isNew)
  {
    if |data| == 0 then Import(entries, [])
    else ImportPair(category, data[|data| - 1], ImportCategory(category, data[..|data| - 1], entries))
  }

  /** Pair `data[i]` lands on entry `j` of the original file. */
  predicate Writes(category: int, data: seq<(int, string)>, entries: seq<Entry>, i: int, j: int)
    requires 0 <= i < |data|
  {
    Target(category, data[i].0, entries) == Some(j)
  }

  /** The keys of the pairs that match no entry of the original file, in pair order. */
  function MissingKeys(category: int, data: seq<(int, string)>, entries: seq<Entry>): seq<string> {
    if |data| == 0 then []
    else
      var n := |data| - 1;
      MissingKeys(category, data[..n], entries)
      + (if Target(category, data[n].0, entries).None? then [KeyString(category, data[n].0)] else [])
  }

  /** One iteration seen from entry `j`, with the target computed on the file as loaded: the
      entry is rewritten when the pair lands on it and kept otherwise. */
  lemma ImportPairAt(category: int, pair: (int, string), st: Import, entries: seq<Entry>, j: int)
    requires |st.entries| == |entries| && 0 <= j < |entries|
    requires forall k :: 0 <= k < |entries| ==> st.entries[k].keys == entries[k].keys
    ensures Target(category, pair.0, entries) == Some(j) ==>
              ImportPair(category, pair, st).entries[j] == st.entries[j].(text := Strip(pair.1), isNew := false)
    ensures Target(category, pair.0, entries) != Some(j) ==>
              ImportPair(category, pair, st).entries[j] == st.entries[j]
  {
    TargetDependsOnKeys(category, pair.0, st.entries, entries);
  }

  /** An entry no pair lands on leaves `import_category` unchanged. */
  lemma {:induction false} ImportCategoryUntouched(category: int, data: seq<(int, string)>, entries: seq<Entry>, j: int)
    requires 0 <= j < |entries|
    requires forall i :: 0 <= i < |data| ==> !Writes(category, data, entries, i, j)
    ensures ImportCategory(category, data, entries).entries[j] == entries[j]
  {
    if |data| > 0 {
      var n := |data| - 1;
      var front := data[..n];
      forall i | 0 <= i < n ensures !Writes(category, front, entries, i, j) {
        assert front[i] == data[i];
        assert !Writes(category, data, entries, i, j);
      }
      ImportCategoryUntouched(category, front, entries, j);
      assert !Writes(category, data, entries, n, j);
      ImportPairAt(category, data[n], ImportCategory(category, front, entries), entries, j);
    }
  }

  /** An entry that pairs land on ends with the stripped value of the LAST such pair and is no
      longer new; its other fields are unchanged. */
  lemma {:induction false} ImportCategoryLastWins(category: int, data: seq<(int, string)>, entries: seq<Entry>, i: int, j: int)
    requires 0 <= i < |data| && 0 <= j < |entries|
    requires Writes(category, data, entries, i, j)
    requires forall k :: i < k < |data| ==> !Writes(category, data, entries, k, j)
    ensures ImportCategory(category, data, entries).entries[j] == entries[j].(text := Strip(data[i].1), isNew := false)
  {
    var n := |data| - 1;
    var front := data[..n];
    if i < n {
      ImportPairAt(category, data[n], ImportCategory(category, front, entries), entries, j);
      forall k | i < k < n ensures !Writes(category, front, entries, k, j) {
        assert front[k] == data[k];
        assert !Writes(category, data, entries, k, j);
      }
      assert front[i] == data[i];
      ImportCategoryLastWins(category, front, entries, i, j);
      assert !Writes(category, data, entries, n, j);
    } else {
      assert i == n;
      assert Writes(category, data, entries, n, j);
      assert Target(category, data[n].0, entries) == Some(j);
      ImportCategoryLastPair(category, data, entries, j);
    }
  }

  /** The last pair of `data` wins on the entry it lands on. */
  lemma ImportCategoryLastPair(category: int, data: seq<(int, string)>, entries: seq<Entry>, j: int)
    requires 0 < |data| && 0 <= j < |entries|
    requires Target(category, data[|data| - 1].0, entries) == Some(j)
    ensures ImportCategory(category, data, entries).entries[j] == entries[j].(text := Strip(data[|data| - 1].1), isNew := false)
  {
    var n := |data| - 1;
    var p := ImportCategory(category, data[..n], entries);
    ImportPairAt(category, data[n], p, entries, j);
    var q := p.entries[j];
    assert q == entries[j].(text := q.text, isNew := q.isNew);
  }

  /** `import_category` warns once per pair that lands on no entry, in pair order. */
  lemma {:induction false} ImportCategoryWarnings(category: int, data: seq<(int, string)>, entries: seq<Entry>)
    ensures ImportCategory(category, data, entries).warnings == MissingKeys(category, data, entries)
  {
    if |data| > 0 {
      var n := |data| - 1;
      var p := ImportCategory(category, data[..n], entries);
      ImportCategoryWarnings(category, data[..n], entries);
      TargetDependsOnKeys(category, data[n].0, p.entries, entries);
    }
  }

  /** A single pair: when no entry mentions its key the file is unchanged and exactly that key is
      warned about; otherwise exactly the first mentioning entry is rewritten and nothing is warned. */
  lemma ImportOnePair(category: int, id: int, value: string, entries: seq<Entry>)
    ensures var r := ImportCategory(category, [(id, value)], entries);
            match Target(category, id, entries)
            case None => r.entries == entries && r.warnings == [KeyString(category, id)]
            case Some(i) => r.warnings == [] && r.entries == entries[i := entries[i].(text := Strip(value), isNew := false)]
  {
    assert [(id, value)][..0] == [];
  }
  /** Which pairs are warned about depends only on the raw keys strings of the file. */
  lemma {:induction false} MissingKeysDependsOnKeys(category: int, data: seq<(int, string)>, a: seq<Entry>, b: seq<Entry>)
    requires |a| == |b|
    requires forall j :: 0 <= j < |a| ==> a[j].keys == b[j].keys
    ensures MissingKeys(category, data, a) == MissingKeys(category, data, b)
  {
    if |data| > 0 {
      var n := |data| - 1;
      MissingKeysDependsOnKeys(category, data[..n], a, b);
      TargetDependsOnKeys(category, data[n].0, a, b);
    }
  }

  /** Entry `j` after a second import of the same pairs is what the first import left there. */
  lemma ImportCategoryTwiceAt(category: int, data: seq<(int, string)>, entries: seq<Entry>, j: int)
    requires 0 <= j < |entries|
    ensures var once := ImportCategory(category, data, entries).entries;
            ImportCategory(category, data, once).entries[j] == once[j]
  {
    var once := ImportCategory(category, data, entries).entries;
    assert forall k :: 0 <= k < |entries| ==> once[k].keys == entries[k].keys;
    forall k | 0 <= k < |data| ensures Writes(category, data, once, k, j) == Writes(category, data, entries, k, j) {
      TargetDependsOnKeys(category, data[k].0, once, entries);
    }
    var i := LastIndex(data, (pair: (int, string)) => Target(category, pair.0, entries) == Some(j));
    if i == -1 {
      ImportCategoryUntouched(category, data, entries, j);
      ImportCategoryUntouched(category, data, once, j);
    } else {
      ImportCategoryLastWins(category, data, entries, i, j);
      ImportCategoryLastWins(category, data, once, i, j);
    }
  }

  /** Importing the same pairs twice is importing them once: the file is unchanged by the second
      run, which warns about the same keys. */
  lemma ImportCategoryTwice(category: int, data: seq<(int, string)>, entries: seq<Entry>)
    ensures var once := ImportCategory(category, data, entries);
            var twice := ImportCategory(category, data, once.entries);
            twice.entries == once.entries && twice.warnings == once.warnings
  {
    var once := ImportCategory(category, data, entries);
    var twice := ImportCategory(category, data, once.entries);
    forall j | 0 <= j < |entries| ensures twice.entries[j] == once.entries[j] {
      ImportCategoryTwiceAt(category, data, entries, j);
    }
    assert forall k :: 0 <= k < |entries| ==> once.entries[k].keys == entries[k].keys;
    ImportCategoryWarnings(category, data, entries);
    ImportCategoryWarnings(category, data, once.entries);
    MissingKeysDependsOnKeys(category, data, once.entries, entries);
  }
}
