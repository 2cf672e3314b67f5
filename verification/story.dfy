/** `import_external_story`: story translations downloaded as one JSON document per story bundle,
    rebuilt into per-bundle block tables and merged into the local story files. */
module Story {
  import opened Wrappers
  import opened Json
  import opened Lookup

  // ---- The downloaded documents ----------------------------------------------------------

  /** One element of a block's `animData`. */
  datatype Anim = Anim(origLen: Value, pathId: Value)

  /** One element of `data['text']`. `newClipLength` is None when the key is absent (a present
      `null` is `Some(Null)`); an absent `animData` or `choices` is the empty list. */
  datatype ImportedBlock = ImportedBlock(
    pathId: Scalar,
    blockIdx: Value,
    enText: Value,
    enName: Value,
    origClipLength: Value,
    newClipLength: Option<Value>,
    animData: seq<Anim>,
    choices: seq<Value>)

  /** One downloaded document: its bundle hash, title and blocks. Each choice is given by its
      `enText`. */
  datatype ImportedStory = ImportedStory(bundle: Scalar, title: Value, text: seq<ImportedBlock>)

  /** A story block as a JSON object, on either side of the merge. */
  type Block = map<string, Value>

  /** The keys a rebuilt block can have. */
  const BuiltKeys: set<string> :=
    {"path_id", "block_id", "text", "name", "clip_length", "source_clip_length", "anim_data", "_choices"}

  /** `{'orig_length': …, 'path_id': …}` for one element of `animData`. */
  function AnimObj(a: Anim): Value {
    Obj(map["orig_length" := a.origLen, "path_id" := a.pathId])
  }

  /** `{'text': …}` for one imported choice. */
  function ChoiceObj(t: Value): Value {
    Obj(map["text" := t])
  }

  /** The block `cur_blocks[block['pathId']]` is set to: the six fixed fields, `clip_length` taken
      from `newClipLength` when the key is present and from `origClipLength` otherwise, and
      `anim_data` and `_choices` only when the lists they are built from are non-empty. */
  function BuildBlock(b: ImportedBlock): (r: Block)
    ensures r.Keys <= BuiltKeys
    ensures "path_id" in r && r["path_id"] == b.pathId
    ensures "block_id" in r && r["block_id"] == b.blockIdx
    ensures "text" in r && r["text"] == b.enText
    ensures "name" in r && r["name"] == b.enName
    ensures "clip_length" in r && r["clip_length"] == (if b.newClipLength.Some? then b.newClipLength.value else b.origClipLength)
    ensures "source_clip_length" in r && r["source_clip_length"] == b.origClipLength
    ensures "anim_data" in r <==> |b.animData| > 0
    ensures "anim_data" in r ==> r["anim_data"].Arr? && |r["anim_data"].items| == |b.animData|
                                 && forall i :: 0 <= i < |b.animData| ==> r["anim_data"].items[i] == AnimObj(b.animData[i])
    ensures "_choices" in r <==> |b.choices| > 0
    ensures "_choices" in r ==> r["_choices"].Arr? && |r["_choices"].items| == |b.choices|
                                && forall i :: 0 <= i < |b.choices| ==> r["_choices"].items[i] == ChoiceObj(b.choices[i])
    ensures "_choices" in r ==> Truthy(r["_choices"])
  {
    var fixed := map[
      "path_id" := b.pathId,
      "block_id" := b.blockIdx,
      "text" := b.enText,
      "name" := b.enName,
      "clip_length" := (match b.newClipLength case Some(v) => v case None => b.origClipLength),
      "source_clip_length" := b.origClipLength];
    var withAnim := if |b.animData| > 0 then fixed["anim_data" := Arr(seq(|b.animData|, i requires 0 <= i < |b.animData| => AnimObj(b.animData[i])))] else fixed;
    if |b.choices| > 0 then withAnim["_choices" := Arr(seq(|b.choices|, i requires 0 <= i < |b.choices| => ChoiceObj(b.choices[i])))] else withAnim
  }

  /** Block `i` is the last one of the document with path id `k`. */
  predicate LastBlock(blocks: seq<ImportedBlock>, i: int, k: Scalar)
    requires 0 <= i < |blocks|
  {
    blocks[i].pathId == k && forall j :: i < j < |blocks| ==> blocks[j].pathId != k
  }

  function PathIdOf(b: ImportedBlock): Scalar { b.pathId }
  function SomeBlock(b: ImportedBlock): Option<ImportedBlock> { Some(b) }
  function BundleOf(s: ImportedStory): Scalar { s.bundle }
  function SomeStory(s: ImportedStory): Option<ImportedStory> { Some(s) }

  /** The last block of a document with each path id. */
  function LastBlocks(blocks: seq<ImportedBlock>): (m: map<Scalar, ImportedBlock>)
    ensures forall i :: 0 <= i < |blocks| ==> blocks[i].pathId in m
    ensures forall k :: k in m ==> exists i :: 0 <= i < |blocks| && LastBlock(blocks, i, k) && m[k] == blocks[i]
  {
    var m := Collect(blocks, PathIdOf, SomeBlock);
    LastBlocksSpec(blocks, m);
    m
  }

  lemma LastBlocksSpec(blocks: seq<ImportedBlock>, m: map<Scalar, ImportedBlock>)
    requires m == Collect(blocks, PathIdOf, SomeBlock)
    ensures forall k :: k in m ==> exists i :: 0 <= i < |blocks| && LastBlock(blocks, i, k) && m[k] == blocks[i]
  {
    forall k | k in m ensures exists i :: 0 <= i < |blocks| && LastBlock(blocks, i, k) && m[k] == blocks[i] {
      var i := CollectWitness(blocks, PathIdOf, SomeBlock, k);
      forall j | i < j < |blocks| ensures blocks[j].pathId != k {
        assert !Contributes(blocks, PathIdOf, SomeBlock, j, k);
      }
      assert LastBlock(blocks, i, k);
    }
  }

  /** `cur_blocks`: every block of a document rebuilt under its path id; a later block with the
      same path id replaces an earlier one. */
  function BuildBundle(blocks: seq<ImportedBlock>): map<Scalar, Block> {
    var last := LastBlocks(blocks);
    map k | k in last :: BuildBlock(last[k])
  }

  /** `cur_blocks` has every path id, under which sits the rebuilt last block with that path id. */
  lemma BuildBundleSpec(blocks: seq<ImportedBlock>)
    ensures forall i :: 0 <= i < |blocks| ==> blocks[i].pathId in BuildBundle(blocks)
    ensures forall k :: k in BuildBundle(blocks) ==>
              exists i :: 0 <= i < |blocks| && LastBlock(blocks, i, k) && BuildBundle(blocks)[k] == BuildBlock(blocks[i])
  {
    var last := LastBlocks(blocks);
    var m := BuildBundle(blocks);
    forall k | k in m ensures exists i :: 0 <= i < |blocks| && LastBlock(blocks, i, k) && m[k] == BuildBlock(blocks[i]) {
      var i :| 0 <= i < |blocks| && LastBlock(blocks, i, k) && last[k] == blocks[i];
    }
  }

  /** Document `i` is the last one with bundle hash `k`. */
  predicate LastStory(stories: seq<ImportedStory>, i: int, k: Scalar)
    requires 0 <= i < |stories|
  {
    stories[i].bundle == k && forall j :: i < j < |stories| ==> stories[j].bundle != k
  }

  /** The last document with each bundle hash. */
  function LastStories(stories: seq<ImportedStory>): (m: map<Scalar, ImportedStory>)
    ensures forall i :: 0 <= i < |stories| ==> stories[i].bundle in m
    ensures forall k :: k in m ==> exists i :: 0 <= i < |stories| && LastStory(stories, i, k) && m[k] == stories[i]
  {
    var m := Collect(stories, BundleOf, SomeStory);
    LastStoriesSpec(stories, m);
    m
  }

  lemma LastStoriesSpec(stories: seq<ImportedStory>, m: map<Scalar, ImportedStory>)
    requires m == Collect(stories, BundleOf, SomeStory)
    ensures forall k :: k in m ==> exists i :: 0 <= i < |stories| && LastStory(stories, i, k) && m[k] == stories[i]
  {
    forall k | k in m ensures exists i :: 0 <= i < |stories| && LastStory(stories, i, k) && m[k] == stories[i] {
      var i := CollectWitness(stories, BundleOf, SomeStory, k);
      forall j | i < j < |stories| ensures stories[j].bundle != k {
        assert !Contributes(stories, BundleOf, SomeStory, j, k);
      }
      assert LastStory(stories, i, k);
    }
  }

  /** `imported_stories`: the rebuilt blocks of every document under its bundle hash; a later
      document with the same hash replaces an earlier one. */
  function ImportedBlocks(stories: seq<ImportedStory>): map<Scalar, map<Scalar, Block>> {
    var last := LastStories(stories);
    map k | k in last :: BuildBundle(last[k].text)
  }

  /** `imported_titles`: the title of every document under its bundle hash, the last one winning. */
  function ImportedTitles(stories: seq<ImportedStory>): map<Scalar, Value> {
    var last := LastStories(stories);
    map k | k in last :: last[k].title
  }

  /** Hash `k` has the blocks and the title of document `i`, the last document with that hash. */
  predicate SameDocument(stories: seq<ImportedStory>, blocks: map<Scalar, map<Scalar, Block>>, titles: map<Scalar, Value>, i: int, k: Scalar)
    requires 0 <= i < |stories| && k in blocks && k in titles
  {
    LastStory(stories, i, k) && blocks[k] == BuildBundle(stories[i].text) && titles[k] == stories[i].title
  }

  /** The two tables are filled in the same loop: every downloaded hash has blocks and a title,
      no other hash has either, and both come from the last document with that hash. */
  lemma TitlesMatchBlocks(stories: seq<ImportedStory>)
    ensures forall i :: 0 <= i < |stories| ==> stories[i].bundle in ImportedBlocks(stories)
    ensures ImportedBlocks(stories).Keys == ImportedTitles(stories).Keys
    ensures forall k :: k in ImportedBlocks(stories) ==>
              exists i :: 0 <= i < |stories| && SameDocument(stories, ImportedBlocks(stories), ImportedTitles(stories), i, k)
  {
    var blocks := ImportedBlocks(stories);
    var titles := ImportedTitles(stories);
    var last := LastStories(stories);
    forall k | k in blocks
      ensures exists i :: 0 <= i < |stories| && SameDocument(stories, blocks, titles, i, k)
    {
      var i :| 0 <= i < |stories| && LastStory(stories, i, k) && last[k] == stories[i];
      assert SameDocument(stories, blocks, titles, i, k);
    }
  }

  // ---- The merge into the local files ----------------------------------------------------

  /** Why a story file could not be merged: a missing key (KeyError), a list index past the end
      (IndexError), or a value of the wrong kind for the operation (TypeError). */
  datatype StoryError = MissingKey(key: string) | IndexOutOfRange(index: nat) | WrongType

  /** `choice['text']` can be read for every `_choices` element from `i` on, and each can be
      written into the element of `choices` at the same index. */
  predicate FitsFrom(block: Block, texts: seq<Value>, i: nat) {
    i >= |texts|
    || ("choices" in block && block["choices"].Arr? && |texts| <= |block["choices"].items|
        && forall j :: i <= j < |texts| ==>
             texts[j].Obj? && "text" in texts[j].fields && block["choices"].items[j].Obj?)
  }

  /** `choices[j]` after its text is replaced by that of `_choices[j]`. */
  function WithText(choice: Value, t: Value): Value
    requires choice.Obj? && t.Obj? && "text" in t.fields
  {
    Obj(choice.fields["text" := t.fields["text"]])
  }

  /** The `for i, choice in enumerate(block['_choices'])` loop from index `i` on. The loop stops at
      the first index whose `choice['text']` or `block['choices'][i]` cannot be evaluated, and the
      block is then not saved. Otherwise element `j` of `choices` takes the text of `_choices[j]`
      for every `j` from `i` on, and every other key and element is kept. */
  function SetTexts(block: Block, texts: seq<Value>, i: nat): (r: Result<Block, StoryError>)
    ensures r.Success? <==> FitsFrom(block, texts, i)
    ensures r.Success? && i >= |texts| ==> r.value == block
    ensures r.Success? && i < |texts| ==>
              var cs := block["choices"].items;
              r.value.Keys == block.Keys
              && (forall k :: k in block && k != "choices" ==> r.value[k] == block[k])
              && r.value["choices"].Arr? && |r.value["choices"].items| == |cs|
              && (forall j :: 0 <= j < |cs| && (j < i || j >= |texts|) ==> r.value["choices"].items[j] == cs[j])
              && (forall j :: i <= j < |texts| ==> r.value["choices"].items[j] == WithText(cs[j], texts[j]))
    decreases |texts| - i
  {
    if i >= |texts| then Success(block)
    else
      var choice := texts[i];
      if !choice.Obj? then Failure(WrongType)
      else if "text" !in choice.fields then Failure(MissingKey("text"))
      else if "choices" !in block then Failure(MissingKey("choices"))
      else if !block["choices"].Arr? then Failure(WrongType)
      else if i >= |block["choices"].items| then Failure(IndexOutOfRange(i))
      else if !block["choices"].items[i].Obj? then Failure(WrongType)
      else
        var cs := block["choices"].items;
        var next := block["choices" := Arr(cs[i := WithText(cs[i], choice)])];
        SetTextsStep(block, texts, i, next);
        SetTexts(next, texts, i + 1)
  }

  /** Writing choice `i` keeps every later choice an object, so the rest of the loop fits the
      updated block exactly when the loop from `i` fitted the original one. */
  lemma SetTextsStep(block: Block, texts: seq<Value>, i: nat, next: Block)
    requires i < |texts| && texts[i].Obj? && "text" in texts[i].fields
    requires "choices" in block && block["choices"].Arr? && i < |block["choices"].items| && block["choices"].items[i].Obj?
    requires next == block["choices" := Arr(block["choices"].items[i := WithText(block["choices"].items[i], texts[i])])]
    ensures FitsFrom(next, texts, i + 1) <==> FitsFrom(block, texts, i)
  {
    var cs := block["choices"].items;
    var ns := next["choices"].items;
    assert |ns| == |cs|;
    assert forall j :: 0 <= j < |cs| && j != i ==> ns[j] == cs[j];
    if FitsFrom(block, texts, i) && i + 1 < |texts| {
      forall j | i + 1 <= j < |texts|
        ensures texts[j].Obj? && "text" in texts[j].fields && ns[j].Obj?
      {
        assert ns[j] == cs[j];
      }
    }
    if FitsFrom(next, texts, i + 1) && i + 1 < |texts| {
      forall j | i <= j < |texts|
        ensures texts[j].Obj? && "text" in texts[j].fields && cs[j].Obj?
      {
        if j > i {
          assert ns[j] == cs[j];
        }
      }
    }
  }

  /** `block.get('_choices')` is truthy: the choice texts still have to be copied. */
  predicate PendingChoices(block: Block) {
    "_choices" in block && Truthy(block["_choices"])
  }

  /** The `_choices` loop can run to the end on `block`. */
  predicate ChoicesFit(block: Block)
    requires PendingChoices(block)
  {
    block["_choices"].Arr? && FitsFrom(block, block["_choices"].items, 0)
  }

  /** The "Fix choices" step on a block after `block.update(import_block)`. With no pending choice
      texts the block is kept as it is. Otherwise element `j` of `choices` takes the text of
      `_choices[j]` for every `j` below the length of `_choices`, later elements are kept, and the
      `_choices` key is deleted; every other key is kept. */
  function FixChoices(merged: Block): (r: Result<Block, StoryError>)
    ensures !PendingChoices(merged) ==> r == Success(merged)
    ensures PendingChoices(merged) ==> (r.Success? <==> ChoicesFit(merged))
    ensures PendingChoices(merged) && r.Success? ==>
              var texts := merged["_choices"].items;
              var cs := merged["choices"].items;
              r.value.Keys == merged.Keys - {"_choices"}
              && (forall k :: k in r.value && k != "choices" ==> r.value[k] == merged[k])
              && r.value["choices"].Arr? && |r.value["choices"].items| == |cs|
              && (forall j :: |texts| <= j < |cs| ==> r.value["choices"].items[j] == cs[j])
              && (forall j :: 0 <= j < |texts| ==> r.value["choices"].items[j] == WithText(cs[j], texts[j]))
  {
    if !PendingChoices(merged) then Success(merged)
    else if !merged["_choices"].Arr? then Failure(WrongType)
    else
      match SetTexts(merged, merged["_choices"].items, 0)
      case Success(b) => Success(b - {"_choices"})
      case Failure(e) => Failure(e)
  }

  /** `imported_stories[data['hash']].get(block['path_id'])` when it is truthy. */
  function ImportFor(local: Block, bundle: map<Scalar, Block>): Option<Block>
    requires "path_id" in local && IsScalar(local["path_id"])
  {
    var key: Scalar := local["path_id"];
    if key in bundle && |bundle[key]| > 0 then Some(bundle[key]) else None
  }

  /** One iteration of `for block in data['data']` against the rebuilt blocks of the file's
      bundle; `MergeBlockSpec` states what it does. */
  function MergeBlock(local: Block, bundle: map<Scalar, Block>): Result<Block, StoryError> {
    if "path_id" !in local then Failure(MissingKey("path_id"))
    else if !IsScalar(local["path_id"]) then Failure(WrongType)
    else
      match ImportFor(local, bundle)
      case None => Success(local)
      case Some(imp) => FixChoices(local + imp)
  }

  /** A block without a hashable `path_id` raises; a block whose path id has no (or an empty)
      imported block is kept; otherwise the imported block's keys are laid over the local block,
      the local keys the import lacks are kept, and pending choice texts are fixed and their
      `_choices` key deleted. */
  lemma MergeBlockSpec(local: Block, bundle: map<Scalar, Block>)
    ensures "path_id" !in local ==> MergeBlock(local, bundle) == Failure(MissingKey("path_id"))
    ensures "path_id" in local && !IsScalar(local["path_id"]) ==> MergeBlock(local, bundle) == Failure(WrongType)
    ensures "path_id" in local && IsScalar(local["path_id"]) && ImportFor(local, bundle).None? ==>
              MergeBlock(local, bundle) == Success(local)
    ensures "path_id" in local && IsScalar(local["path_id"]) && ImportFor(local, bundle).Some? ==>
              var imp := ImportFor(local, bundle).value;
              var r := MergeBlock(local, bundle);
              (r.Success? <==> !PendingChoices(local + imp) || ChoicesFit(local + imp))
              && (r.Success? ==>
                    (forall k :: k in imp && k != "choices" && k != "_choices" ==> k in r.value && r.value[k] == imp[k])
                    && (forall k :: k in local && k !in imp && k != "choices" && k != "_choices" ==> k in r.value && r.value[k] == local[k])
                    && (PendingChoices(local + imp) ==> "_choices" !in r.value))
  {
  }

  /** Merging a rebuilt imported block: every rebuilt field replaces the local one, `choices`
      element `j` takes the English text of imported choice `j`, and no `_choices` key is left
      unless the import had no choices and the local block already held a `_choices` key. The
      merge fails exactly when the import has choices and the local `choices` list is missing,
      not a list, shorter than the import's, or holds a non-object among its first elements. */
  lemma MergeBuiltBlock(local: Block, b: ImportedBlock)
    requires "_choices" !in local || |b.choices| > 0
    ensures var r := FixChoices(local + BuildBlock(b));
            (r.Success? <==>
               |b.choices| == 0
               || ("choices" in local && local["choices"].Arr? && |b.choices| <= |local["choices"].items|
                   && forall j :: 0 <= j < |b.choices| ==> local["choices"].items[j].Obj?))
            && (r.Success? ==>
                  "_choices" !in r.value
                  && (forall k :: k in BuildBlock(b) && k != "_choices" ==> k in r.value && r.value[k] == BuildBlock(b)[k])
                  && (|b.choices| > 0 ==>
                        var cs := local["choices"].items;
                        r.value["choices"].Arr? && |r.value["choices"].items| == |cs|
                        && (forall j :: 0 <= j < |b.choices| ==> r.value["choices"].items[j] == Obj(cs[j].fields["text" := b.choices[j]]))
                        && (forall j :: |b.choices| <= j < |cs| ==> r.value["choices"].items[j] == cs[j])))
  {
    var imp := BuildBlock(b);
    var merged := local + imp;
    if |b.choices| > 0 {
      assert merged["_choices"] == imp["_choices"];
      assert "choices" !in imp;
      assert "choices" in merged <==> "choices" in local;
    }
  }

  /** The loop over all blocks of a file: the first block that raises stops it; otherwise every
      block is merged on its own. */
  function MergeBlocks(blocks: seq<Block>, bundle: map<Scalar, Block>): (r: Result<seq<Block>, StoryError>)
    ensures r.Success? <==> forall i :: 0 <= i < |blocks| ==> MergeBlock(blocks[i], bundle).Success?
    ensures r.Success? ==> |r.value| == |blocks| && forall i :: 0 <= i < |blocks| ==> MergeBlock(blocks[i], bundle) == Success(r.value[i])
    ensures r.Failure? ==> exists i :: 0 <= i < |blocks| && FirstFailure(blocks, bundle, i) && MergeBlock(blocks[i], bundle) == Failure(r.error)
  {
    var results := seq(|blocks|, i requires 0 <= i < |blocks| => MergeBlock(blocks[i], bundle));
    assert forall i :: 0 <= i < |blocks| ==> results[i] == MergeBlock(blocks[i], bundle);
    var r := AllOrFirstError(results);
    if r.Success? then r
    else
      var i :| 0 <= i < |results| && FirstError(results, i) && results[i] == Failure(r.error);
      assert FirstFailure(blocks, bundle, i);
      r
  }

  /** Block `i` is the first that raises. */
  predicate FirstFailure(blocks: seq<Block>, bundle: map<Scalar, Block>, i: int)
    requires 0 <= i < |blocks|
  {
    MergeBlock(blocks[i], bundle).Failure? && forall j :: 0 <= j < i ==> MergeBlock(blocks[j], bundle).Success?
  }

  /** A local story file: its bundle hash, its title if it has one, and its blocks (`data['data']`). */
  datatype LocalStory = LocalStory(hash: Scalar, title: Option<Value>, blocks: seq<Block>)

  /** One iteration of `for local_file in local_files`. A file whose hash was not downloaded is
      kept; otherwise it takes the downloaded title and every block is merged, unless a block
      raises. */
  function MergeStory(file: LocalStory, stories: map<Scalar, map<Scalar, Block>>, titles: map<Scalar, Value>): (r: Result<LocalStory, StoryError>)
    ensures file.hash !in stories ==> r == Success(file)
    ensures file.hash in stories ==>
              (r.Success? <==> forall i :: 0 <= i < |file.blocks| ==> MergeBlock(file.blocks[i], stories[file.hash]).Success?)
    ensures file.hash in stories && r.Success? ==>
              r.value.hash == file.hash
              && r.value.title == (if file.hash in titles then Some(titles[file.hash]) else file.title)
              && |r.value.blocks| == |file.blocks|
              && forall i :: 0 <= i < |file.blocks| ==> MergeBlock(file.blocks[i], stories[file.hash]) == Success(r.value.blocks[i])
  {
    if file.hash !in stories then Success(file)
    else
      var title := if file.hash in titles then Some(titles[file.hash]) else file.title;
      match MergeBlocks(file.blocks, stories[file.hash])
      case Failure(e) => Failure(e)
      case Success(bs) => Success(LocalStory(file.hash, title, bs))
  }

  /** What is on disk after the loop over the local files, and the error that ended it, if any. */
  datatype Outcome = Outcome(saved: seq<LocalStory>, error: Option<StoryError>)

  /** File `k` is the first whose merge raises. */
  predicate FirstFailedFile(files: seq<LocalStory>, stories: map<Scalar, map<Scalar, Block>>, titles: map<Scalar, Value>, k: int)
    requires 0 <= k < |files|
  {
    MergeStory(files[k], stories, titles).Failure? && forall i :: 0 <= i < k ==> MergeStory(files[i], stories, titles).Success?
  }

  /** The run stopped at file `k`: the files before it were merged and saved, it raised `e`, and
      it and every later file are as they were. */
  predicate StoppedAt(files: seq<LocalStory>, stories: map<Scalar, map<Scalar, Block>>, titles: map<Scalar, Value>, saved: seq<LocalStory>, e: StoryError, k: int)
    requires |saved| == |files|
  {
    0 <= k < |files| && FirstFailedFile(files, stories, titles, k)
    && MergeStory(files[k], stories, titles) == Failure(e)
    && (forall i :: 0 <= i < k ==> MergeStory(files[i], stories, titles) == Success(saved[i]))
    && (forall i :: k <= i < |files| ==> saved[i] == files[i])
  }

  /** The loop over the local files. Each file is saved as soon as it is merged; the first file
      that raises ends the run, so it and every later file stay as they were. */
  function MergeStoryFiles(files: seq<LocalStory>, stories: map<Scalar, map<Scalar, Block>>, titles: map<Scalar, Value>): (r: Outcome)
    ensures |r.saved| == |files|
    ensures r.error.None? <==> forall i :: 0 <= i < |files| ==> MergeStory(files[i], stories, titles).Success?
    ensures r.error.None? ==> forall i :: 0 <= i < |files| ==> MergeStory(files[i], stories, titles) == Success(r.saved[i])
    ensures r.error.Some? ==> exists k :: StoppedAt(files, stories, titles, r.saved, r.error.value, k)
  {
    var results := seq(|files|, i requires 0 <= i < |files| => MergeStory(files[i], stories, titles));
    assert forall i :: 0 <= i < |files| ==> results[i] == MergeStory(files[i], stories, titles);
    match FirstIndex(results, (x: Result<LocalStory, StoryError>) => x.Failure?)
    case None =>
      Outcome(seq(|files|, i requires 0 <= i < |files| => results[i].value), None)
    case Some(k) =>
      var saved := seq(|files|, i requires 0 <= i < |files| => if i < k then results[i].value else files[i]);
      assert StoppedAt(files, stories, titles, saved, results[k].error, k);
      Outcome(saved, Some(results[k].error))
  }

  /** A file whose hash was not downloaded is on disk unchanged after the run. */
  lemma MergeStoryFilesKeeps(files: seq<LocalStory>, stories: map<Scalar, map<Scalar, Block>>, titles: map<Scalar, Value>, i: int)
    requires 0 <= i < |files| && files[i].hash !in stories
    ensures MergeStoryFiles(files, stories, titles).saved[i] == files[i]
  {
    var r := MergeStoryFiles(files, stories, titles);
    if r.error.Some? {
      var k :| StoppedAt(files, stories, titles, r.saved, r.error.value, k);
    }
  }

  /** A hash no document carries has no downloaded blocks. */
  lemma NotDownloaded(documents: seq<ImportedStory>, hash: Scalar)
    requires forall j :: 0 <= j < |documents| ==> documents[j].bundle != hash
    ensures hash !in ImportedBlocks(documents)
  {
    TitlesMatchBlocks(documents);
  }

  /** `import_external_story` with the documents already downloaded: a local file whose hash no
      document carries is never changed, whatever happens to the others. */
  function ImportExternalStory(documents: seq<ImportedStory>, files: seq<LocalStory>): (r: Outcome)
    ensures |r.saved| == |files|
    ensures forall i :: 0 <= i < |files| && (forall j :: 0 <= j < |documents| ==> documents[j].bundle != files[i].hash) ==>
              r.saved[i] == files[i]
  {
    var stories := ImportedBlocks(documents);
    var titles := ImportedTitles(documents);
    var r := MergeStoryFiles(files, stories, titles);
    forall i | 0 <= i < |files| && (forall j :: 0 <= j < |documents| ==> documents[j].bundle != files[i].hash)
      ensures r.saved[i] == files[i]
    {
      NotDownloaded(documents, files[i].hash);
      MergeStoryFilesKeeps(files, stories, titles, i);
    }
    r
  }
  // ---- Running the merge twice -----------------------------------------------------------

  /** Every block of the bundle sits under its own path id and has no `choices` key: what
      `cur_blocks` holds. */
  predicate Rebuilt(bundle: map<Scalar, Block>) {
    forall k :: k in bundle ==> "path_id" in bundle[k] && bundle[k]["path_id"] == k && "choices" !in bundle[k]
  }

  /** `cur_blocks` is a rebuilt bundle. */
  lemma BuildBundleRebuilt(blocks: seq<ImportedBlock>)
    ensures Rebuilt(BuildBundle(blocks))
  {
    var last := LastBlocks(blocks);
    var m := BuildBundle(blocks);
    forall k | k in m ensures "path_id" in m[k] && m[k]["path_id"] == k && "choices" !in m[k] {
      var i :| 0 <= i < |blocks| && LastBlock(blocks, i, k) && last[k] == blocks[i];
      BuiltUnder(last[k], k);
    }
  }

  /** A block rebuilt from one with path id `k` carries `k` and no `choices` key. */
  lemma BuiltUnder(b: ImportedBlock, k: Scalar)
    requires b.pathId == k
    ensures var r := BuildBlock(b);
            "path_id" in r && r["path_id"] == k && "choices" !in r
  {
    assert "choices" !in BuiltKeys;
  }

  /** Every bundle of `imported_stories` is a rebuilt bundle. */
  lemma ImportedBlocksRebuilt(stories: seq<ImportedStory>)
    ensures forall k :: k in ImportedBlocks(stories) ==> Rebuilt(ImportedBlocks(stories)[k])
  {
    var last := LastStories(stories);
    forall k | k in ImportedBlocks(stories) ensures Rebuilt(ImportedBlocks(stories)[k]) {
      BuildBundleRebuilt(last[k].text);
    }
  }

  /** Copying the same choice texts into a block a second time changes nothing. */
  lemma SetTextsTwice(block: Block, texts: seq<Value>, i: nat)
    ensures SetTexts(block, texts, i).Success? ==>
              SetTexts(SetTexts(block, texts, i).value, texts, i) == SetTexts(block, texts, i)
  {
    var r := SetTexts(block, texts, i);
    if r.Success? && i < |texts| {
      var b := r.value;
      var cs := block["choices"].items;
      var bs := b["choices"].items;
      assert FitsFrom(b, texts, i);
      var b2 := SetTexts(b, texts, i).value;
      var bs2 := b2["choices"].items;
      forall j | i <= j < |texts| ensures bs2[j] == bs[j] {
        assert bs[j] == WithText(cs[j], texts[j]);
        assert bs[j].fields["text" := texts[j].fields["text"]] == bs[j].fields;
      }
      assert bs2 == bs;
      assert b2 == b;
    }
  }

  /** Laying an import with no `choices` key over the block its first merge produced, and fixing
      the choices again, gives that block back. */
  lemma MergeAgain(local: Block, imp: Block, m: Block)
    requires "choices" !in imp
    requires FixChoices(local + imp) == Success(m)
    ensures FixChoices(m + imp) == Success(m)
  {
    var merged := local + imp;
    if !PendingChoices(merged) {
      assert m + imp == m;
    } else {
      var texts := merged["_choices"].items;
      var st := SetTexts(merged, texts, 0).value;
      assert m == st - {"_choices"};
      if "_choices" in imp {
        assert m + imp == st;
        SetTextsTwice(merged, texts, 0);
      } else {
        assert m + imp == m;
      }
    }
  }

  /** Merging a block against a rebuilt bundle a second time gives what the first merge gave:
      the merged block keeps the path id that found the import, the import's fields are already
      in place, and its choice texts are already copied. */
  lemma MergeBlockTwice(local: Block, bundle: map<Scalar, Block>)
    requires Rebuilt(bundle)
    ensures MergeBlock(local, bundle).Success? ==>
              MergeBlock(MergeBlock(local, bundle).value, bundle) == MergeBlock(local, bundle)
  {
    var r := MergeBlock(local, bundle);
    if r.Success? && "path_id" in local && IsScalar(local["path_id"]) && ImportFor(local, bundle).Some? {
      var key: Scalar := local["path_id"];
      var imp := bundle[key];
      var m := r.value;
      assert FixChoices(local + imp) == Success(m);
      assert "path_id" in m && m["path_id"] == key;
      assert ImportFor(m, bundle) == Some(imp);
      MergeAgain(local, imp, m);
    }
  }

  /** Merging a merged story file again, with the same downloaded tables, gives the same file. */
  lemma MergeStoryTwice(file: LocalStory, stories: map<Scalar, map<Scalar, Block>>, titles: map<Scalar, Value>)
    requires forall k :: k in stories ==> Rebuilt(stories[k])
    ensures MergeStory(file, stories, titles).Success? ==>
              MergeStory(MergeStory(file, stories, titles).value, stories, titles) == MergeStory(file, stories, titles)
  {
    var r := MergeStory(file, stories, titles);
    if r.Success? && file.hash in stories {
      var f := r.value;
      forall i | 0 <= i < |f.blocks| ensures MergeBlock(f.blocks[i], stories[file.hash]) == Success(f.blocks[i]) {
        MergeBlockTwice(file.blocks[i], stories[file.hash]);
      }
      var r2 := MergeStory(f, stories, titles);
      assert r2.value.blocks == f.blocks;
    }
  }

  /** A second run over the files the first run left on disk ends the same way: the files merged
      before merge again to themselves, and the file that raised is still as it was and raises the
      same error. */
  lemma MergeStoryFilesTwice(files: seq<LocalStory>, stories: map<Scalar, map<Scalar, Block>>, titles: map<Scalar, Value>)
    requires forall k :: k in stories ==> Rebuilt(stories[k])
    ensures var r := MergeStoryFiles(files, stories, titles);
            MergeStoryFiles(r.saved, stories, titles) == r
  {
    var r := MergeStoryFiles(files, stories, titles);
    if r.error.None? {
      forall i | 0 <= i < |files| ensures MergeStory(r.saved[i], stories, titles) == Success(r.saved[i]) {
        MergeStoryTwice(files[i], stories, titles);
      }
      assert MergeStoryFiles(r.saved, stories, titles).saved == r.saved;
    } else {
      var k :| StoppedAt(files, stories, titles, r.saved, r.error.value, k);
      StoppedAgain(files, stories, titles, r.saved, r.error.value, k);
    }
  }

  /** After a run that stopped at file `k`, a second run over the saved files stops at the same
      file with the same error and leaves the saved files as they are. */
  lemma StoppedAgain(files: seq<LocalStory>, stories: map<Scalar, map<Scalar, Block>>, titles: map<Scalar, Value>, saved: seq<LocalStory>, e: StoryError, k: int)
    requires forall k :: k in stories ==> Rebuilt(stories[k])
    requires |saved| == |files| && StoppedAt(files, stories, titles, saved, e, k)
    ensures MergeStoryFiles(saved, stories, titles) == Outcome(saved, Some(e))
  {
    var r2 := MergeStoryFiles(saved, stories, titles);
    forall i | 0 <= i < k ensures MergeStory(saved[i], stories, titles) == Success(saved[i]) {
      MergeStoryTwice(files[i], stories, titles);
    }
    assert FirstFailedFile(saved, stories, titles, k);
    var k2 :| StoppedAt(saved, stories, titles, r2.saved, r2.error.value, k2);
    FirstFailedUnique(saved, stories, titles, k, k2);
    assert r2.saved == saved;
  }

  /** Only one file is the first to raise. */
  lemma FirstFailedUnique(files: seq<LocalStory>, stories: map<Scalar, map<Scalar, Block>>, titles: map<Scalar, Value>, a: int, b: int)
    requires 0 <= a < |files| && 0 <= b < |files|
    requires FirstFailedFile(files, stories, titles, a) && FirstFailedFile(files, stories, titles, b)
    ensures a == b
  {
  }

  /** Running the story import twice with the same downloaded documents leaves the files as the
      first run left them and ends with the same error, if any. */
  lemma ImportExternalStoryTwice(documents: seq<ImportedStory>, files: seq<LocalStory>)
    ensures var r := ImportExternalStory(documents, files);
            ImportExternalStory(documents, r.saved) == r
  {
    ImportedBlocksRebuilt(documents);
    MergeStoryFilesTwice(files, ImportedBlocks(documents), ImportedTitles(documents));
  }
}
