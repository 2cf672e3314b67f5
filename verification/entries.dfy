/** Translation entries of a `text_data/<category>.json` file and the overwrite every merge performs. */
module Entries {
  import opened Wrappers
  import opened Json

  /** One entry of a text-data file. `keys` is the raw JSON string of the entry's keys; `keyPairs`
      is what `json.loads` makes of it; `prevText` is absent until a merge sets `prev_text`. */
  datatype Entry = Entry(
    keys: string,
    keyPairs: seq<(Scalar, Scalar)>,
    source: string,
    text: string,
    prevText: Option<string>,
    isNew: bool)

  /** What a matched entry becomes: the old text is kept as `prev_text`, `text` is replaced and
      the entry is no longer `new`; every other field is kept. */
  function Overwrite(e: Entry, t: string): (r: Entry)
    ensures r.text == t && r.prevText == Some(e.text) && !r.isNew
    ensures r.keys == e.keys && r.keyPairs == e.keyPairs && r.source == e.source
  {
    e.(prevText := Some(e.text), text := t, isNew := false)
  }

  /** The loop `for entry in data: if <entry matches>: <overwrite entry>`, where `lookup` gives the
      new text of a matched entry and None otherwise. Entries are processed one by one, in order. */
  function MergeEach(entries: seq<Entry>, lookup: Entry -> Option<string>): (r: seq<Entry>)
    ensures |r| == |entries|
    ensures forall i :: 0 <= i < |entries| && lookup(entries[i]).Some? ==>
              r[i] == Overwrite(entries[i], lookup(entries[i]).value)
    ensures forall i :: 0 <= i < |entries| && lookup(entries[i]).None? ==> r[i] == entries[i]
  {
    if |entries| == 0 then []
    else
      var n := |entries| - 1;
      var e := entries[n];
      MergeEach(entries[..n], lookup) + [if lookup(e).Some? then Overwrite(e, lookup(e).value) else e]
  }

  /** A merge leaves the matching data of every entry alone, so a second merge with the same lookup
      matches the same entries and sets the same texts; only `prev_text` moves on. */
  lemma MergeEachTwice(entries: seq<Entry>, lookup: Entry -> Option<string>)
    requires forall e, t :: lookup(Overwrite(e, t)) == lookup(e)
    ensures var once := MergeEach(entries, lookup);
            var twice := MergeEach(once, lookup);
            forall i :: 0 <= i < |entries| ==>
              twice[i] == once[i].(prevText := if lookup(entries[i]).Some? then Some(once[i].text) else once[i].prevText)
  {
  }
}
