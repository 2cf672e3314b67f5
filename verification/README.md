# Keyed merges of the external-translation importer

This project models the merge logic of `src/_import_external.py`. The script pulls English
translations from outside sources and merges them into the game's local translation files:

- character profiles from the umapyoi API;
- skill names and descriptions from GameTora;
- mission and title-mission texts scraped from GameTora;
- story translations downloaded from GitHub.

Once fetching, scraping and file I/O are stripped away, every routine has the same shape. A list
of local records (text-data entries or story blocks) and an externally built table go in. Matched
records are overwritten, and every other record is kept as it was. The model states each routine
as a pure function over sequences and maps. Each one has a partner that says what it means:

- a reference definition (`Profiles.Items`, `Category.MissingKeys`);
- a first-match or last-wins characterisation (`Lookup.FirstIndex`, `Lookup.Collect`);
- a per-record "overwritten / untouched" contract;
- an idempotence lemma: running a merge a second time with the same external data gives what
  the first run gave, apart from `prev_text` moving on in the per-entry merges.

Lemmas connect the routines to their partners.

Modules:

- `Wrappers`: `Option` and `Result`.
- `Json`: decoded JSON values, Python truthiness and `str()` of scalars.
- `Text`: Python's `str.strip` (with Python's exact whitespace set), `in` on strings, and
  `str.replace(pat, "")`.
- `Lookup`: the `for … break` first-match search and the last-wins dict build.
- `Entries`: the text-data entry and the overwrite (`prev_text`, `text`, `new`) the skill and
  mission merges share.
- `Category`: `import_category`.
- `Profiles`: `fetch_chara_data` and the regrouping in `apply_umapyoi_character_profiles`.
- `Skills`: `apply_gametora_skills` and `fetch_skill_translations`.
- `Missions`: `apply_gametora_missions` and `apply_gametora_title_missions`.
- `Story`: `import_external_story`.

Choices the model makes:

- Python exceptions that abort a routine become `Failure` values. A file the exception stops is
  then not saved. In the story import, the files saved before the exception stay saved
  (`Story.Outcome`).
- A text-data entry keeps its raw `keys` string next to the parsed key pairs. `import_category`
  tests for a substring in the raw string, while the description and title-mission merges read
  the parsed pairs.
- `util.add_period` is a function parameter `addPeriod`. The SQLite lookup from a title id to
  mission ids is a function parameter `rowsOf`.

Behaviour of the code worth knowing:

- An imported block with fewer `_choices` than the local block has `choices` silently keeps the
  remaining local choice texts. An imported block with more raises.
- `import_category` does not set `prev_text`, unlike the other merges.
- Unmatched external keys are only warned about in `import_category`. No other routine reports
  them.

## Model

| member | source | states |
|---|---|---|
| `Json.Decimal` | src/_import_external.py:460 | `str(n)` is a canonical numeral: a minus sign exactly for negative numbers, then digits with no leading zero, and never `-0` |
| `Json.NatDecimalRoundTrip` | src/_import_external.py:460 | reading back the digits of a natural number gives the number |
| `Json.DecimalRoundTrip` | src/_import_external.py:460 | `int(str(n)) == n` for every integer |
| `Json.DecimalInjective` | src/_import_external.py:460 | different integers give different `str(n)`, so distinct mission row ids give distinct keys of `new_dict` |
| `Json.PyStr` | src/_import_external.py:475 | `str(key[1])` of a string is the string itself, of an integer the canonical numeral that reads back as the integer (the only one, by `Json.CanonicalUnique`), and of `None`/booleans their Python names |
| `Json.ParseNatDecimal` | src/_import_external.py:460 | a digit string without a leading zero is the rendering of the number it denotes |
| `Json.CanonicalRoundTrip` | src/_import_external.py:460 | `str(int(s)) == s` for every canonical numeral `s` |
| `Json.NegativeCanonical` | src/_import_external.py:460 | a canonical numeral with a minus sign is `str` of the negative integer it denotes |
| `Json.CanonicalUnique` | src/_import_external.py:475-476 | two canonical numerals for the same integer are the same string, so the lookup string of an integer id is unique |
| `Json.TruthyIffNotZero` | src/_import_external.py:230 | `block.get('_choices')` is truthy exactly when the value differs from the zero of its kind (`None`, `False`, `0`, empty string, list or object) |
| `Text.Strip` | src/_import_external.py:56 | `value.strip()` is a contiguous slice of the value; everything cut off is Python whitespace and the result neither starts nor ends with whitespace |
| `Text.StripIdempotent` | src/_import_external.py:56 | stripping a stripped value changes nothing |
| `Text.RemoveAll` | src/_import_external.py:426 | `s.replace(pat, "")` is no longer than `s` and only holds characters of `s`; a one-character pattern leaves none of that character; a pattern that does not occur leaves `s` unchanged |
| `Text.SubstringAt` | src/_import_external.py:55 | `key in entry["keys"]` holds exactly when the key occurs at some index of the keys string |
| `Text.NotSubstringOfChar` | src/_import_external.py:426 | a one-character pattern whose character does not occur in a string is not a substring of it |
| `Lookup.FirstIndex` | src/_import_external.py:53-58 | the `for … break` search stops at the first element satisfying the test, and runs to the end exactly when none does |
| `Lookup.FirstIndexAgrees` | src/_import_external.py:53-58 | two lists on which the test agrees element by element stop the search at the same index |
| `Lookup.Collect` | src/_import_external.py:249 | a dict built row by row has a key for every contributing row, and each key's value comes from the last row that contributes that key |
| `Lookup.CollectStep` | src/_import_external.py:249 | one more row maps its key, when it contributes, to its own value and leaves every other key with the value of the last earlier contributing row |
| `Lookup.CollectWitness` | src/_import_external.py:249 | every key of a built dict names the row its value comes from, and no later row contributes that key |
| `Lookup.AllOrFirstError` | src/_import_external.py:220-234 | a loop whose steps may raise yields every step's value exactly when no step raises, and otherwise the error of the first step that raises |
| `Entries.Overwrite` | src/_import_external.py:266-268 | a matched entry keeps its old text as `prev_text`, takes the new text, is no longer new, and keeps its keys and source |
| `Entries.MergeEach` | src/_import_external.py:264-268 | every entry the lookup matches is overwritten with the looked-up text, and every other entry is unchanged |
| `Entries.MergeEachTwice` | src/_import_external.py:264-268 | when the overwrite does not change what the lookup sees, a second merge equals the first except that `prev_text` now holds the first merge's text |
| `Category.KeyString` | src/_import_external.py:53 | the key `[category, id]` is bracketed, is four characters longer than its two numerals, and has its only comma, followed by a space, right after the category numeral |
| `Category.KeyStringLayout` | src/_import_external.py:53 | the category's numeral sits between the opening bracket and the comma, and the id's numeral between the space and the closing bracket |
| `Category.SplitKey` | src/_import_external.py:53 | a bracketed pair of numerals splits back into the same two numerals |
| `Category.KeyStringInjective` | src/_import_external.py:53 | different `(category, id)` pairs give different keys, so a key names exactly one pair |
| `Category.Target` | src/_import_external.py:53-56 | a pair lands on the first entry whose raw keys string contains `[category, id]`, and on none when no entry does |
| `Category.TargetDependsOnKeys` | src/_import_external.py:55 | only the raw keys strings decide where a pair lands |
| `Category.ImportPair` | src/_import_external.py:52-60 | one pair either rewrites exactly its target entry with the stripped value and `new = false`, or changes nothing and warns about its key |
| `Category.ImportCategory` | src/_import_external.py:52-60 | the file keeps its length, and only `text` and `new` of any entry can change |
| `Category.ImportPairAt` | src/_import_external.py:53-58 | seen from one entry, a pair rewrites it exactly when it is the pair's target in the file as loaded |
| `Category.ImportCategoryUntouched` | src/_import_external.py:52-58 | an entry no pair lands on is unchanged |
| `Category.ImportCategoryLastWins` | src/_import_external.py:52-58 | an entry pairs land on ends with the stripped value of the last such pair and `new = false`; its other fields are unchanged |
| `Category.ImportCategoryLastPair` | src/_import_external.py:52-58 | the last pair's stripped value wins on the entry it lands on |
| `Category.ImportCategoryWarnings` | src/_import_external.py:59-60 | exactly one warning per pair that lands on no entry, in pair order |
| `Category.ImportOnePair` | src/_import_external.py:52-60 | for a single pair: no match means the file is unchanged and exactly that key is warned about; a match rewrites exactly the first matching entry and warns about nothing |
| `Category.MissingKeysDependsOnKeys` | src/_import_external.py:53-60 | which pairs are warned about depends only on the raw keys strings of the file |
| `Category.ImportCategoryTwiceAt` | src/_import_external.py:52-58 | each entry after a second import of the same pairs is what the first import left there |
| `Category.ImportCategoryTwice` | src/_import_external.py:52-60 | importing the same pairs a second time leaves the file unchanged and warns about the same keys |
| `Profiles.FieldsFrom` | src/_import_external.py:35-37 | one item per truthy API field, holding the field's category and value, no other items, and no category twice |
| `Profiles.FetchCharacter` | src/_import_external.py:16-39 | the id is kept; a failed request gives an empty dict; every category is one of the seven profile categories with non-empty text and occurs once; every truthy mapped field is present |
| `Profiles.GroupOfPresent` | src/_import_external.py:79-82 | a category has a group exactly when its list is non-empty |
| `Profiles.AddItem` | src/_import_external.py:79-82 | appending keeps `category_data` a dict of non-empty lists and extends exactly one category's list by the pair |
| `Profiles.AddProfile` | src/_import_external.py:77-82 | one character's dict appends its pairs, in dict order, to each category's list |
| `Profiles.AddProfileStep` | src/_import_external.py:77-82 | appending one pair and then the rest of a dict gives each category the same list as appending the whole dict, and a category has a list exactly when it had one or the dict gives it pairs |
| `Profiles.AppendSplit` | src/_import_external.py:77-82 | for one category: appending the first pair, then the rest of the dict, appends the whole dict's pairs for that category |
| `Profiles.Regroup` | src/_import_external.py:71-82 | each category's list is exactly the pairs all characters contribute to it, in character order, and only categories with pairs get a list |
| `Profiles.ApplyGroups` | src/_import_external.py:85-86 | each grouped category whose file exists is imported with its group; every other file is unchanged |
| `Profiles.ItemsOfMembership` | src/_import_external.py:77-78 | a character contributes `(id, v)` to category `c` exactly when its dict holds `c ↦ v` |
| `Profiles.RegroupMembership` | src/_import_external.py:76-82 | `(id, v)` is in group `c` exactly when some character `id` has `c ↦ v` |
| `Profiles.ItemsMembership` | src/_import_external.py:76-82 | the reference list of category `c` holds `(id, v)` exactly when some character `id` has `c ↦ v` |
| `Profiles.ItemsWithout` | src/_import_external.py:72 | removing a character with an empty dict changes no category's pairs |
| `Profiles.EmptyProfileContributesNothing` | src/_import_external.py:72 | dropping a character with an empty dict changes no group |
| `Profiles.GroupCategoryHasSource` | src/_import_external.py:76-82 | every category with pairs occurs in some character's dict |
| `Profiles.FetchAll` | src/_import_external.py:68-69 | the fetched characters keep the order and ids of the requested ids |
| `Profiles.ApplyCharacterProfiles` | src/_import_external.py:65-86 | each category file is imported with exactly the pairs the characters contribute to it; files outside the seven profile categories are unchanged |
| `Profiles.FetchedCategories` | src/_import_external.py:23-37 | a category that gets a group is a profile category, filled from a truthy field of some response |
| `Skills.NameTable` | src/_import_external.py:249 | the name table has every Japanese name with a truthy English name, and each value is the English name of the last such row |
| `Skills.NameTableLast` | src/_import_external.py:249 | each name-table value comes from the last row with that Japanese name and a truthy English name |
| `Skills.DescTable` | src/_import_external.py:250 | the description table has every id with a truthy description, and each value is the description of the last such row |
| `Skills.DescTableLast` | src/_import_external.py:250 | each description-table value comes from the last row with that id and a truthy description |
| `Skills.MergeSkillNames` | src/_import_external.py:264-268 | an entry whose source is in the name table gets the English name, keeps its old text as `prev_text` and is no longer new; every other entry is unchanged |
| `Skills.MergeSkillNamesTwice` | src/_import_external.py:264-268 | a second name merge sets the same texts and flags, and only `prev_text` moves on |
| `Skills.MergeSkillDescriptions` | src/_import_external.py:275-283 | the merge fails exactly when some entry has no keys, and then at the first one; otherwise an entry whose `keys[0][1]` is in the table gets `add_period` of the description, and every other entry is unchanged |
| `Skills.MergeSkillDescriptionsTwice` | src/_import_external.py:275-283 | after a description merge that succeeds, a second one succeeds, rewrites the same entries with the same text, and only moves `prev_text` on |
| `Skills.SkillTranslations` | src/_import_external.py:290-297 | every source of file 47 is a key, mapped to the text of the last entry with that source |
| `Skills.ApplyGametoraSkills` | src/_import_external.py:241-287 | both name files are merged; the description file is merged when every entry has keys and is otherwise left as it was with the error reported; other files are kept |
| `Missions.EachMissionFile` | src/_import_external.py:421-432 | the mission files 66 and 67 go through the merge and every other file is kept |
| `Missions.Normalise` | src/_import_external.py:426 | the normalised source has no newline character, only holds characters of the source, and equals the source when neither pattern occurs |
| `Missions.NormaliseSinglePass` | src/_import_external.py:426 | a normalised source can still hold the two-character escape backslash-n |
| `Missions.MergeMissions` | src/_import_external.py:425-430 | an entry whose normalised source was scraped gets `add_period` of the scraped text, keeps its old text as `prev_text` and is no longer new; every other entry is unchanged |
| `Missions.MergeMissionsTwice` | src/_import_external.py:425-430 | a second mission merge rewrites the same entries with the same text; only `prev_text` moves on, and unmatched entries stay as they were |
| `Missions.ApplyMissions` | src/_import_external.py:414-432 | an empty scrape changes nothing; otherwise files 66 and 67 each become the merge of that file with the scraped table, keep their length, and each entry is overwritten or kept according to its normalised source; other files are kept |
| `Missions.Reserved` | src/_import_external.py:461 | `startswith("20")`: the id's first two characters are `2` and `0` |
| `Missions.CandidatesSpec` | src/_import_external.py:449-463 | the expansion's candidate pairs are exactly the `(str(row), text)` pairs of the scraped ids and their mission rows |
| `Missions.CandidatesStep` | src/_import_external.py:459-463 | one more scraped id adds exactly its own rows' candidates |
| `Missions.ExpansionSources` | src/_import_external.py:447-463 | no added id starts with "20"; each takes the text of the last candidate, in loop order, with that id, which is the text of a scraped item one of whose rows it is |
| `Missions.ExpandedFrom` | src/_import_external.py:459-463 | an id of the filtered dict build is unreserved and holds the text of the last candidate with that id |
| `Missions.CandidateFromItem` | src/_import_external.py:449-463 | every candidate comes from a scraped item and one of its rows |
| `Missions.ExpansionCovers` | src/_import_external.py:459-463 | every row id of a scraped item that does not start with "20" is added |
| `Missions.Scraped` | src/_import_external.py:440 | the scraped dict has every scraped id, each with a scraped text |
| `Missions.ScrapedSpec` | src/_import_external.py:440 | each value of the scraped dict is the text of an item with that id |
| `Missions.ScrapedDict` | src/_import_external.py:440-449 | for the items of a dict, each item's text is the dict's value for its id, so the expansion reads the dict's values |
| `Missions.TitleTableSpec` | src/_import_external.py:464 | after `update`, an id is in the table exactly when it was scraped or expanded, and an expanded id takes the expansion's text |
| `Missions.Overlay` | src/_import_external.py:464 | `update` with any dict: its keys take its values and every other key is a scraped id with its scraped text |
| `Missions.ScrapedIds` | src/_import_external.py:440 | an id is a key of the scraped dict exactly when some scraped item has it |
| `Missions.TitleHit` | src/_import_external.py:474-476 | the inner key loop stops at the first key whose `str(key[1])` has a truthy text, and runs to the end when none does |
| `Missions.TitleHitFirst` | src/_import_external.py:474-480 | a key that hits, after keys that all miss, is where the search stops |
| `Missions.MergeTitleMissions` | src/_import_external.py:472-480 | an entry is rewritten once, with the text of the first of its keys whose `str(key[1])` has a truthy text; an entry with no such key is unchanged |
| `Missions.MergeTitleMissionsTwice` | src/_import_external.py:472-480 | a second title-mission merge rewrites the same entries with the same text; only `prev_text` moves on, and entries without a hit stay as they were |
| `Missions.ApplyTitleMissions` | src/_import_external.py:440-484 | an empty scrape changes nothing; otherwise files 66 and 67 are merged with the expanded table and every other file is kept |
| `Missions.ReservedNotExpanded` | src/_import_external.py:459-464 | an id starting with "20" is in the table only as a scraped id with its scraped text |
| `Story.BuildBlock` | src/_import_external.py:167-194 | the rebuilt block copies the six fixed fields; `clip_length` is `newClipLength` when that key is present and `origClipLength` otherwise; `source_clip_length` is always `origClipLength`; `anim_data` and `_choices` are present exactly when their lists are non-empty and hold one object per element |
| `Story.LastBlocks` | src/_import_external.py:166-167 | every path id of a document is a key, mapped to the last block with that path id |
| `Story.LastBlocksSpec` | src/_import_external.py:166-167 | each value comes from the last block with its path id |
| `Story.BuildBundleSpec` | src/_import_external.py:165-194 | `cur_blocks` has every path id, mapped to the rebuilt last block with that path id |
| `Story.LastStories` | src/_import_external.py:164-198 | every bundle hash is a key, mapped to the last document with that hash |
| `Story.LastStoriesSpec` | src/_import_external.py:197-198 | each value comes from the last document with its hash |
| `Story.TitlesMatchBlocks` | src/_import_external.py:197-198 | every downloaded hash has blocks and a title, no other hash has either, and both are those of the last document with that hash |
| `Story.SetTexts` | src/_import_external.py:231-232 | the choice loop succeeds exactly when every `_choices` element has a text and fits an object in `choices`; then each such choice takes its text and every other key and choice is kept |
| `Story.SetTextsStep` | src/_import_external.py:231-232 | setting the text of choice `i` does not change whether the remaining `_choices` fit, so the loop can go on from `i + 1` |
| `Story.FixChoices` | src/_import_external.py:229-234 | with no pending `_choices` the block is kept; otherwise it succeeds exactly when the choices fit, copies the texts positionally, keeps later choices, and deletes `_choices` |
| `Story.MergeBlockSpec` | src/_import_external.py:220-234 | a block without `path_id` fails; an unmatched block is kept; a matched block takes every imported field, keeps the local fields the import lacks, and has no `_choices` left once texts were pending |
| `Story.MergeBuiltBlock` | src/_import_external.py:227-234 | merging a rebuilt block fails exactly when it has choices that the local `choices` cannot hold; otherwise every rebuilt field is taken, choice `j` gets imported text `j`, later choices are kept, and no `_choices` remains |
| `Story.MergeBlocks` | src/_import_external.py:220-234 | the block loop succeeds exactly when every block merges, with each block merged on its own; otherwise it reports the first block's error |
| `Story.MergeStory` | src/_import_external.py:211-234 | a file whose hash was not downloaded is kept; otherwise it takes the downloaded title and every block is merged, unless one fails |
| `Story.MergeStoryFiles` | src/_import_external.py:206-236 | without errors every file is merged; otherwise the run stops at the first failing file, the files before it are saved merged, and it and all later files are unchanged |
| `Story.MergeStoryFilesKeeps` | src/_import_external.py:211-213 | a file whose hash was not downloaded is on disk unchanged after the run |
| `Story.NotDownloaded` | src/_import_external.py:197 | a hash no document carries has no downloaded blocks |
| `Story.ImportExternalStory` | src/_import_external.py:147-236 | a local file whose hash no downloaded document carries is never changed |
| `Story.BuildBundleRebuilt` | src/_import_external.py:165-194 | every block of `cur_blocks` carries the path id it is stored under and has no `choices` key |
| `Story.ImportedBlocksRebuilt` | src/_import_external.py:164-198 | every bundle of `imported_stories` is such a rebuilt bundle |
| `Story.SetTextsTwice` | src/_import_external.py:231-232 | copying the same choice texts into a block a second time changes nothing |
| `Story.MergeAgain` | src/_import_external.py:227-234 | laying the same import over an already merged block and fixing its choices again gives the block back |
| `Story.MergeBlockTwice` | src/_import_external.py:220-234 | against a rebuilt bundle, merging a merged block again gives the same block |
| `Story.MergeStoryTwice` | src/_import_external.py:211-234 | merging a merged story file again with the same downloads gives the same file |
| `Story.StoppedAgain` | src/_import_external.py:206-236 | after a run that stopped at a file, a second run over the saved files stops at the same file with the same error and changes nothing |
| `Story.MergeStoryFilesTwice` | src/_import_external.py:206-236 | a second run over the files the first run saved saves the same files and ends with the same error, if any |
| `Story.ImportExternalStoryTwice` | src/_import_external.py:147-236 | running the story import twice with the same downloaded documents is running it once |

## Left out

- Network access is not modelled: `requests.get`, `raise_for_status`, the status checks and the
  `Pool(5)` fan-out (lines 18-21, 68-69, 141-159). The API answers are inputs. A failed request
  is `None`.
- The Selenium scraping and its embedded JavaScript (lines 300-409) are not modelled. Their
  results are inputs: a dict for the missions, and for the title missions the item list of the
  scraped dict in its iteration order (`Missions.IsDictItems`: no id twice). The wait
  loop at line 305 reads `t0` before it is assigned.
- The SQLite query of the title-mission expansion (lines 447-457) is the parameter `rowsOf`. The
  query returns integer mission ids.
- `util.load_json`, `util.save_json`, `glob.glob` and the file-exists test of `import_category`
  (lines 45-47) are not modelled. Files are in-memory values and a category file that does not
  exist is absent from the store. The order of the local story files is the input order.
- `util.add_period` is the parameter `addPeriod`; its body is not part of this model.
- `json.loads` of an entry's keys (lines 276 and 473) is taken as already done: each key is a
  pair of scalars, so `key[1]` always exists.
- Logging via `print` is not modelled. `Category.ImportCategory` keeps its warnings as a list,
  but `Profiles.ApplyGroups` drops them, so `Profiles.ApplyCharacterProfiles` reports none.
- API fields are modelled as strings or `null` (`Profiles.ApiCharacter`, `Skills.GtSkill`). A
  truthy field of another JSON type is not modelled: the program would raise AttributeError at
  `value.strip()` (line 56) for a profile, or write the value as entry text (line 267) for a
  skill.
- `apply_umapyoi_outfits`, `fetch_outfits` and `get_umapyoi_chara_ids` (lines 89-138) and
  `main` are not modelled. They are fetching and scraping code without a merge of their own.
- JSON floating-point numbers are not modelled. Python's hashing of `1` and `True` as the same
  dict key is not modelled either: `Int(1)` and `Bool(true)` are different keys here.
- A missing field in a downloaded record is not modelled: `name_ja`, `id`, `pathId`, `bundle`,
  `title` and the other required keys are assumed present. A missing `hash` or `data` in a
  local story file is not modelled either.
- `Story.StoryError` groups Python's exceptions into KeyError, IndexError and TypeError. When
  `block['choices']` is not a list it always reports TypeError. In Python, `block['choices'][i]`
  at line 232 raises KeyError when `choices` is a dict. It raises IndexError when `choices` is a
  string no longer than `i`, such as `""`. A longer string raises TypeError.
- `Missions.TitleTable` and `Missions.ApplyTitleMissions` require the scraped items to have
  distinct ids, since they stand for a dict. How the scraping JavaScript orders the dict's keys
  is not modelled; the order is the input order.
- `Story.ImportExternalStory`: its contract only states that files with an undownloaded hash
  stay unchanged. What happens to the other files is stated by `Story.MergeStoryFiles`, which it
  calls.
