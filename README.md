# jitsuu data-acquisition scripts, modelled in Dafny

The jitsuu repository fills a SQLite database with the kanji entries of
Kotobank's 字通 dictionary. Four Python scripts do this:

- `scripts/scrape_kotobank_jitsu.py` crawls the index pages, upserts one row
  per entry, and then fills each kanji row's details from its entry page. The
  details are the gaiji image source and the 字音/字訓/字形 texts. With both
  crawl modes, a consumer thread reads the entry ids from a queue that the
  index crawl feeds.
- `scripts/collect_gaiji_images.py` picks the kana-only kanji entries of an id
  range and records each one's gaiji image in a gaiji table.
- `scripts/generate_gaiji_report.py` writes an HTML page listing the gaiji
  table joined with the entries.
- `scripts/apply_gaiji_transcriptions.py` reads `entry_id,gaiji_char` pairs
  from a CSV file and records them in the gaiji table.

This project models the sequential core of these scripts:

- the argument and table-name checks;
- the extraction of entries from index links and of the description from an
  entry page's sibling nodes;
- the string normalisers;
- the row-level effect of every SQL statement, with each table a
  `map<int, Row>` held in a class whose methods change it;
- the per-item decisions and counters of the three loops;
- the report's line layout and escaping.

HTTP responses, parsed HTML and parsed CSV come in as values or as function
parameters. For example, a fetch is a function from href to an optional
result, and `None` stands for a request that raised.

Where the scripts work by loops, the model has methods with loops. Each is
proved equal to a fold written as a function, and the properties are lemmas
about those folds.

Modules, one file each:

| file | module | models |
|---|---|---|
| results.dfy | Results | Option/Result, how a `main` ends, an order-keeping filter, dict assignment |
| strings.dfy | Strings | `str.strip`, `split`, `join`, ASCII `lower`, `int()`/`str()` on decimals |
| table_names.dfy | TableNames | `validate_table_name` (the same in all four scripts) |
| urls.dfy | Urls | the part of `urllib.parse.urlparse` the scripts read (path and query) |
| crawl_modes.dfy | CrawlModes | `parse_crawl_modes` and the checks and dispatch of the crawler's `main` |
| index_page.dfy | IndexPage | `extract_entries` |
| entry_details.dfy | EntryDetails | `normalize_text`, `parse_description`, the crawler's `normalize_image_src`, `fetch_entry_details` |
| entry_store.dfy | EntryStore | the entry table: upsert, detail update, `should_process_row` |
| entry_queue.dfy | EntryQueue | the queue producer and `crawl_entry_pages_from_queue` |
| ordering.dfy | Ordering | `ORDER BY id` over integer keys |
| gaiji_store.dfy | GaijiStore | the gaiji table: upsert and transcription UPDATE |
| gaiji_collector.dfy | GaijiCollector | `collect_gaiji_images.py` |
| report_text.dfy | ReportText | the fixed text of the report page |
| gaiji_report.dfy | GaijiReport | `generate_gaiji_report.py` |
| gaiji_transcriptions.dfy | GaijiTranscriptions | `apply_gaiji_transcriptions.py` |

## Model

| member | source | states |
|---|---|---|
| TableNames.ValidateTableName | scripts/scrape_kotobank_jitsu.py:103-108 | accepts exactly the ASCII identifiers `[A-Za-z_][A-Za-z0-9_]*`, returns the name unchanged, and otherwise fails with the script's message (the same function as scripts/collect_gaiji_images.py:70-75, scripts/generate_gaiji_report.py:40-45 and scripts/apply_gaiji_transcriptions.py:36-41) |
| TableNames.WordCharsFrom | scripts/scrape_kotobank_jitsu.py:32 | the `[A-Za-z0-9_]*` tail of `TABLE_RE` matches exactly when every remaining character is a word character |
| TableNames.AcceptedNameIsInert | scripts/scrape_kotobank_jitsu.py:103-108 | an accepted name holds no space, quote, bracket, comma, dot, semicolon or dash, so it cannot break out of the SQL it is pasted into |
| Strings.Strip | scripts/scrape_kotobank_jitsu.py:154 | `str.strip()`: the result neither starts nor ends with whitespace and is no longer than the input |
| Strings.StripTrimmed | scripts/scrape_kotobank_jitsu.py:154 | stripping a string that neither starts nor ends with whitespace changes nothing |
| Strings.StripBounds | scripts/scrape_kotobank_jitsu.py:154 | the strip is the slice between a whitespace-only prefix and a whitespace-only suffix |
| Strings.Split | scripts/scrape_kotobank_jitsu.py:44 | `str.split(sep)` gives at least one piece, and no piece contains the separator |
| Strings.SplitWithoutSeparator | scripts/scrape_kotobank_jitsu.py:44 | a string without the separator splits into itself alone |
| Strings.JoinSplit | scripts/scrape_kotobank_jitsu.py:44 | joining the pieces of a split with the same separator gives the string back |
| Strings.LowerIsWord | scripts/scrape_kotobank_jitsu.py:44 | a text lower-cases to a word of lower-case ASCII letters and `_` exactly when it has the word's length and each character is the word's own, its upper-case letter, or for `k` the Kelvin sign U+212A |
| Strings.NatToString | scripts/generate_gaiji_report.py:110 | `str(n)` is a non-empty run of digits without a leading zero |
| Strings.DigitsOfNat | scripts/generate_gaiji_report.py:110 | the digits of `str(n)` have the value `n` |
| Strings.ParseIntDigits | scripts/scrape_kotobank_jitsu.py:169 | `int()` of a run of ASCII digits is its value |
| Strings.ParseIntNegated | scripts/apply_gaiji_transcriptions.py:57 | `int()` of a minus sign and digits is the negated value |
| Strings.ParseIntToString | scripts/apply_gaiji_transcriptions.py:57 | `int(str(n)) == n` for every integer |
| CrawlModes.ModeItems | scripts/scrape_kotobank_jitsu.py:44 | the items of a `--crawl` value are no more than the pieces, and none is empty |
| CrawlModes.ModeItemsAreStrippedPieces | scripts/scrape_kotobank_jitsu.py:44 | each item is the lower-cased strip of a piece that is not blank |
| CrawlModes.ModeItemsKeepNonBlank | scripts/scrape_kotobank_jitsu.py:44 | every piece that is not blank gives an item |
| CrawlModes.ParseCrawlModes | scripts/scrape_kotobank_jitsu.py:43-59 | the set-building loop returns what `CrawlModes` specifies: an error without items or with an unknown item, and otherwise the set of modes |
| CrawlModes.CrawlModesNonEmpty | scripts/scrape_kotobank_jitsu.py:45-49 | a successful parse is a non-empty set |
| CrawlModes.CrawlModesMembers | scripts/scrape_kotobank_jitsu.py:50-54 | `index` is chosen exactly when an item reads `index`; `entries` exactly when an item reads `entries` or `kanji_entries` |
| CrawlModes.DefaultCrawlIsIndex | scripts/scrape_kotobank_jitsu.py:69 | the default `--crawl` value selects the index crawl alone |
| CrawlModes.DispatchTotal | scripts/scrape_kotobank_jitsu.py:470-513 | every parse result matches one of the three branches, so the "invalid crawl mode selection" branch cannot be reached |
| CrawlModes.CrawlerMainExitStatus | scripts/scrape_kotobank_jitsu.py:436-449 | with a parsable `--crawl`, `main` returns 2 exactly when `1 <= start <= end` fails; otherwise it raises exactly when the table name is invalid |
| IndexPage.StripKanjiSuffix | scripts/scrape_kotobank_jitsu.py:30 | `KANJI_SUFFIX_RE.sub`: the result is a prefix of the input; it differs exactly when the right-stripped text ends in `(漢字)`, and then only the marker and the whitespace around it are removed |
| IndexPage.DigitRunEnd | scripts/scrape_kotobank_jitsu.py:31 | the maximal run of ASCII digits from a position |
| IndexPage.IdStart | scripts/scrape_kotobank_jitsu.py:31 | `ID_RE.search` finds the leftmost position where a dash, digits, and then `#` or the end follow |
| IndexPage.ExtractOne | scripts/scrape_kotobank_jitsu.py:153-171 | a kept link has a non-empty stripped keyword, a non-empty href and the id `ID_RE` finds; its type is `kanji` exactly when the stripped text contains `(漢字)`; with `kanji_only` it is always `kanji`; a blank text is dropped |
| IndexPage.ExtractEntries | scripts/scrape_kotobank_jitsu.py:149-172 | the appending loop returns the entries of the links in link order |
| IndexPage.ExtractAllAppend | scripts/scrape_kotobank_jitsu.py:153-171 | extraction works link by link |
| IndexPage.ExtractAllFromAnchors | scripts/scrape_kotobank_jitsu.py:149-172 | no more entries than links; every entry comes from a link; every link that passes the checks gives its entry |
| IndexPage.ExtractAllKanjiOnly | scripts/scrape_kotobank_jitsu.py:158-159 | with `kanji_only`, every entry is of type `kanji` |
| IndexPage.PageSkippedIsDropped | scripts/scrape_kotobank_jitsu.py:313-314 | the `max(..., 0)` in the page's skipped count never cuts in: it is the number of links dropped |
| IndexPage.ContainsSuffix | scripts/scrape_kotobank_jitsu.py:157 | a text ending in `(漢字)` contains the marker |
| IndexPage.TrimRightOfSpaced | scripts/scrape_kotobank_jitsu.py:160 | `rstrip` removes exactly the trailing whitespace |
| IndexPage.KanjiKeyword | scripts/scrape_kotobank_jitsu.py:154-160 | the text `keyword + whitespace + (漢字)` keeps the keyword and is a kanji text |
| IndexPage.ExtractKanjiAnchor | scripts/scrape_kotobank_jitsu.py:149-172 | a kanji link to `prefix-<n>` gives `(n, keyword, href, "kanji")` |
| IndexPage.ExtractWordAnchor | scripts/scrape_kotobank_jitsu.py:149-172 | a link without the marker gives `(n, keyword, href, "word")` |
| IndexPage.DigitRunOfNat | scripts/scrape_kotobank_jitsu.py:31 | the digits of `n` followed by `#` or the end form one maximal run |
| IndexPage.EntryIdOfDash | scripts/scrape_kotobank_jitsu.py:166-169 | the id of `prefix-<n>` followed by `#...` or nothing is `n` |
| EntryDetails.Collapse | scripts/scrape_kotobank_jitsu.py:208 | `re.sub(r"\s+", " ", s)`: every whitespace character left is one space, none is next to another, and the first character is whitespace exactly when it was before |
| EntryDetails.NormalizeText | scripts/scrape_kotobank_jitsu.py:207-208 | the result has no whitespace at either end, only single spaces inside, and no two spaces next to each other |
| EntryDetails.StripKeepsSpaces | scripts/scrape_kotobank_jitsu.py:208 | stripping a single-spaced text gives a normalised text |
| EntryDetails.NonSpaceAppend | scripts/scrape_kotobank_jitsu.py:208 | the non-whitespace characters of a concatenation are those of the parts |
| EntryDetails.CollapseKeepsText | scripts/scrape_kotobank_jitsu.py:208 | collapsing whitespace keeps every other character, in order |
| EntryDetails.StripKeepsText | scripts/scrape_kotobank_jitsu.py:208 | stripping keeps every character that is not whitespace |
| EntryDetails.NormalizeTextKeepsText | scripts/scrape_kotobank_jitsu.py:207-208 | `normalize_text` changes only whitespace |
| EntryDetails.CollapseOfSingleSpaced | scripts/scrape_kotobank_jitsu.py:208 | collapsing a single-spaced text changes nothing |
| EntryDetails.NormalizedIsFixed | scripts/scrape_kotobank_jitsu.py:207-208 | a normalised text is a fixed point of `normalize_text` |
| EntryDetails.NormalizeTextIdempotent | scripts/scrape_kotobank_jitsu.py:207-208 | `normalize_text` applied twice equals applied once |
| EntryDetails.SpaceAt | scripts/scrape_kotobank_jitsu.py:222 | the first whitespace character from a position |
| EntryDetails.Words | scripts/scrape_kotobank_jitsu.py:222 | `str.split()` gives non-empty pieces without whitespace |
| EntryDetails.CollapseAppend | scripts/scrape_kotobank_jitsu.py:208 | `re.sub(r"\s+", " ", ...)` of two texts joined at a cut that is not inside a whitespace run is the concatenation of the two results |
| EntryDetails.CollapseRun | scripts/scrape_kotobank_jitsu.py:208 | a whitespace run between two texts that do not end or start with whitespace becomes exactly one space, and both sides are collapsed on their own |
| EntryDetails.CollapseWordThen | scripts/scrape_kotobank_jitsu.py:208 | a word in front of a text comes out of the substitution unchanged |
| EntryDetails.CollapseWords | scripts/scrape_kotobank_jitsu.py:208 | the substitution turns a text that starts with a word into its `split()` words joined by single spaces, plus one space when it ends in whitespace |
| EntryDetails.NormalizeTextIsJoinedWords | scripts/scrape_kotobank_jitsu.py:207-208 | `normalize_text(value)` equals `" ".join(value.split())` for every text |
| Strings.StripPadded | scripts/scrape_kotobank_jitsu.py:208 | `.strip()` of a trimmed text with whitespace runs on both sides gives back exactly that text |
| EntryDetails.LookupFinds | scripts/scrape_kotobank_jitsu.py:215 | `HEAD_LABEL_MAP.get` finds a key exactly when a pair carries the label, and that pair's key |
| EntryDetails.LabelKeys | scripts/scrape_kotobank_jitsu.py:34-38 | the three labels map to jion, jikun and jikei, and no other label has a key |
| EntryDetails.StopAt | scripts/scrape_kotobank_jitsu.py:221-223 | the sibling walk stops at the first span whose class tokens include `head` |
| EntryDetails.SectionUpdates | scripts/scrape_kotobank_jitsu.py:213-228 | one possible assignment per child |
| EntryDetails.SectionUpdatesAt | scripts/scrape_kotobank_jitsu.py:213-228 | the assignment at a child is that child's |
| EntryDetails.CollectSection | scripts/scrape_kotobank_jitsu.py:218-227 | the `parts` loop gives the head's tail, then each sibling's text and tail, up to the stopping span |
| EntryDetails.ParseDescription | scripts/scrape_kotobank_jitsu.py:211-229 | the loop over heads returns the defaults updated by one assignment per recognised head, in order |
| EntryDetails.LastHead | scripts/scrape_kotobank_jitsu.py:213-228 | the last head that carries a key's label |
| EntryDetails.LastHeadIsLast | scripts/scrape_kotobank_jitsu.py:213-228 | that head carries the label, and no later head does |
| EntryDetails.DescriptionValue | scripts/scrape_kotobank_jitsu.py:211-229 | every key is present; its value is the normalised section text of the last head with its label, or `""` when there is none, so a repeated label overwrites the earlier one |
| EntryDetails.DescriptionNormalized | scripts/scrape_kotobank_jitsu.py:228 | each value is a normalised text |
| EntryDetails.ImageUrl | scripts/scrape_kotobank_jitsu.py:198-203 | a source is read as a URL exactly when it starts with `//`, `http://` or `https://` |
| EntryDetails.NormalizeImageSrc | scripts/scrape_kotobank_jitsu.py:195-204 | `""` stays `""`, and a source not read as a URL is returned unchanged |
| EntryDetails.NormalizeImageSrcOfImageUrl | scripts/scrape_kotobank_jitsu.py:198-203 | a source read as a URL becomes that URL's path and query |
| EntryDetails.ImageUrlOfWebUrl | scripts/scrape_kotobank_jitsu.py:201-202 | an `http`/`https` source is read as itself |
| EntryDetails.NormalizeImageSrcOfUrl | scripts/scrape_kotobank_jitsu.py:201-203 | `scheme://host/path?query` becomes the path, with `?query` only when the query is non-empty |
| EntryDetails.NormalizeImageSrcOfRelative | scripts/scrape_kotobank_jitsu.py:198-200 | a `//` source is normalised as its `https:` URL is |
| EntryDetails.NormalizeImageSrcShape | scripts/scrape_kotobank_jitsu.py:198-203 | a normalised URL is empty or starts with `/` or `?`, and has no `#` |
| EntryDetails.FetchedDetails | scripts/scrape_kotobank_jitsu.py:238-255 | without an image node the image source is `""`; without a description node the three texts are `""`; the texts are always normalised |
| EntryStore.UpsertOne | scripts/scrape_kotobank_jitsu.py:180-190 | the upsert of one entry adds its id and keeps every other key |
| EntryStore.LastEntryFor | scripts/scrape_kotobank_jitsu.py:180-190 | the last entry of the batch for an id |
| EntryStore.LastEntryIsLast | scripts/scrape_kotobank_jitsu.py:180-190 | no later entry has that id, and there is none exactly when the id is not in the batch |
| EntryStore.UpsertAllKeys | scripts/scrape_kotobank_jitsu.py:175-192 | after the batch, the table holds the old ids and the batch's ids |
| EntryStore.UpsertAllRow | scripts/scrape_kotobank_jitsu.py:184-187 | an id in the batch takes keyword, href and type from its last entry and keeps its details (NULL for a new row); an id outside the batch is untouched |
| EntryStore.UpsertKeepsDetails | scripts/scrape_kotobank_jitsu.py:184-187 | the upsert never changes the four detail columns of an existing row |
| EntryStore.UpsertedNewRowNeedsDetails | scripts/scrape_kotobank_jitsu.py:182-183 | a row the batch inserts satisfies `should_process_row` |
| EntryStore.UpdatedDetails | scripts/scrape_kotobank_jitsu.py:267-277 | the detail update keeps the keys, and updating an absent id changes nothing |
| EntryStore.UpdatedDetailsOthers | scripts/scrape_kotobank_jitsu.py:274 | the detail update leaves every other row as it was |
| EntryStore.UpdatedRowIsDone | scripts/scrape_kotobank_jitsu.py:258-282 | after the update the row no longer satisfies `should_process_row`, keeps its index columns, and holds the four given strings |
| EntryStore.EntryTable.Upsert | scripts/scrape_kotobank_jitsu.py:175-192 | `upsert_entries` changes the table as the batch upsert specifies and returns `len(entries)`, 0 for an empty batch |
| EntryStore.EntryTable.UpdateDetails | scripts/scrape_kotobank_jitsu.py:258-278 | `update_entry_details` changes the table as the detail update specifies |
| EntryQueue.KanjiItemsAreEntries | scripts/scrape_kotobank_jitsu.py:319-322 | every queued item is the id and href of a kanji entry of the page, and never the sentinel |
| EntryQueue.KanjiItemsNoSentinel | scripts/scrape_kotobank_jitsu.py:40 | no queued item is the sentinel `(-1, "")` |
| EntryQueue.FetchEntryDetailsNormalized | scripts/scrape_kotobank_jitsu.py:232-255 | a request that raises gives no details; otherwise the three texts are normalised |
| EntryQueue.ConsumeSnoc | scripts/scrape_kotobank_jitsu.py:385-431 | the consumer works item by item |
| EntryQueue.ConsumeAfterStop | scripts/scrape_kotobank_jitsu.py:386-389 | after the sentinel, later items change nothing |
| EntryQueue.ConsumeTakesAll | scripts/scrape_kotobank_jitsu.py:385-431 | before the sentinel, every item is taken |
| EntryQueue.ConsumeStopsAtSentinel | scripts/scrape_kotobank_jitsu.py:386-389 | the consumer stops at the first sentinel, having taken exactly the items up to and including it |
| EntryQueue.StepSkipped | scripts/scrape_kotobank_jitsu.py:386-418 | a step adds one to `skipped` exactly when the item is a duplicate, not a kanji row, already filled, or without an href; such a step changes no row and no other counter |
| EntryQueue.StepAccounted | scripts/scrape_kotobank_jitsu.py:385-431 | one item keeps the consumer accounted for |
| EntryQueue.ConsumeAccounted | scripts/scrape_kotobank_jitsu.py:385-431 | after any items: `task_done` has been called once per item taken; each item was the sentinel, or skipped, processed or failed; each id is looked up at most once, because it enters `seen` before the lookup |
| EntryQueue.StepOnlyFillsNeeded | scripts/scrape_kotobank_jitsu.py:404-431 | one item only fills a kanji row that needed details |
| EntryQueue.ConsumeOnlyFillsNeeded | scripts/scrape_kotobank_jitsu.py:404-431 | the consumer adds and removes no rows; a row it changed was a kanji row that needed details, no longer does, and keeps its index columns |
| EntryQueue.IndexThenSentinel | scripts/scrape_kotobank_jitsu.py:488-508 | a queue fed with the index crawl's kanji items and then the sentinel is drained: every item is taken and acknowledged, and the consumer stops |
| EntryQueue.ConsumeQueue | scripts/scrape_kotobank_jitsu.py:372-433 | the `while True` loop changes the table and the counters `processed` and `skipped` as the consume fold specifies, with the item and `task_done` counts |
| Ordering.LeastExists | scripts/collect_gaiji_images.py:155 | a non-empty set of ids has a least element |
| Ordering.SortedKeys | scripts/collect_gaiji_images.py:155 | `ORDER BY id` lists each key of a set once, in ascending order |
| GaijiStore.UpsertGaiji | scripts/collect_gaiji_images.py:119-131 | the upsert adds the id and sets its image source; an existing transcription is kept, and a new row has none |
| GaijiStore.UpsertGaijiOthers | scripts/collect_gaiji_images.py:126-127 | the upsert leaves every other row as it was |
| GaijiStore.SetGaijiChar | scripts/apply_gaiji_transcriptions.py:84-87 | the UPDATE touches a row exactly when the id is in the table; it never inserts, sets only that row's transcription, and leaves other rows as they were |
| GaijiStore.TranscriptionSurvivesRecollection | scripts/collect_gaiji_images.py:124-127 | a transcription recorded after a collection survives a later re-collection, which only replaces the image source |
| GaijiStore.GaijiTable.Upsert | scripts/collect_gaiji_images.py:119-131 | `upsert_gaiji` changes the table as the upsert specifies |
| GaijiStore.GaijiTable.Transcribe | scripts/apply_gaiji_transcriptions.py:84-88 | the UPDATE changes the table as specified, and its row count is 1 when it touched a row and 0 otherwise |
| GaijiCollector.SearchKanji | scripts/collect_gaiji_images.py:20 | `KANJI_RE.search` finds a character in U+4E00..U+9FFF |
| GaijiCollector.SearchKanjiFirst | scripts/collect_gaiji_images.py:20 | the search finds the first such character, and finds none exactly when there is none |
| GaijiCollector.KanaOnlyIff | scripts/collect_gaiji_images.py:92-93 | `is_kana_only` holds exactly when no character is in U+4E00..U+9FFF, and it holds for `""` |
| GaijiCollector.NormalizeImageSrc | scripts/collect_gaiji_images.py:96-102 | a source that is not an `http`/`https` URL is returned unchanged, including `//...` and `""` |
| GaijiCollector.NormalizeImageSrcOfUrl | scripts/collect_gaiji_images.py:97-101 | a URL becomes its path, with `?query` only when the query is non-empty |
| GaijiCollector.AgreesWithCrawler | scripts/collect_gaiji_images.py:96-102 | the collector's and the crawler's variants agree on every source that does not start with `//` |
| GaijiCollector.ProtocolRelativeKept | scripts/collect_gaiji_images.py:96-102 | on a `//` source they differ: the collector keeps it as it is, and the crawler reads it as an `https:` URL |
| GaijiCollector.NotWebUrl | scripts/collect_gaiji_images.py:97 | a `//` source is not an `http`/`https` URL |
| GaijiCollector.FetchImageSrc | scripts/collect_gaiji_images.py:110-116 | there is a source exactly when an image node exists and its `src` is non-empty, and then it is the normalised `src` |
| GaijiCollector.Ids | scripts/collect_gaiji_images.py:163 | one id per candidate |
| GaijiCollector.SelectCandidates | scripts/collect_gaiji_images.py:150-157 | the query lists the kanji rows whose ids are within the range (a zero bound is no bound), each once, in ascending order, with their keyword and href |
| GaijiCollector.CollectSnoc | scripts/collect_gaiji_images.py:163-179 | the loop works candidate by candidate |
| GaijiCollector.CollectCounted | scripts/collect_gaiji_images.py:163-179 | `processed == inserted + skipped`; the loop stops only on a non-zero limit it has reached; with a positive limit at most `limit` entries are processed, with a negative one none |
| GaijiCollector.StepSameRun | scripts/collect_gaiji_images.py:166-167 | a non-kana candidate changes nothing that a run shows |
| GaijiCollector.CollectIgnoresNonKana | scripts/collect_gaiji_images.py:166-167 | a run over all candidates and a run over the kana-only ones leave the same table and counters, so non-kana entries count for nothing, not even towards the limit |
| GaijiCollector.StepKeepsTranscriptions | scripts/collect_gaiji_images.py:168-179 | one candidate keeps the recorded transcriptions |
| GaijiCollector.CollectKeepsTranscriptionsIn | scripts/collect_gaiji_images.py:163-179 | only candidates' rows change, and every recorded transcription survives |
| GaijiCollector.CollectKeepsTranscriptions | scripts/collect_gaiji_images.py:163-179 | the run deletes no row, keeps every recorded transcription, adds rows without one, and touches only candidates' ids |
| GaijiCollector.CollectAfterStop | scripts/collect_gaiji_images.py:164-165 | once the limit breaks the loop, later candidates change nothing |
| GaijiCollector.CollectImages | scripts/collect_gaiji_images.py:159-179 | the loop changes the gaiji table and the three counters as the collection fold specifies |
| GaijiCollector.CollectorMain | scripts/collect_gaiji_images.py:134-188 | an invalid table name raises and a missing database returns 2, both leaving the table unchanged; otherwise it returns 0 after collecting over candidates that are exactly the selected ids, in ascending order, each with its entry's keyword and href |
| GaijiReport.MarkupFreeConcat | scripts/generate_gaiji_report.py:116-124 | joining two markup-free texts gives a markup-free text |
| GaijiReport.EscapeMarkupFree | scripts/generate_gaiji_report.py:110-115 | `html.escape` leaves no `<`, `>`, `"` or `'` |
| GaijiReport.EscapePlain | scripts/generate_gaiji_report.py:110-115 | a text without any of `& < > " '` is not changed by escaping |
| GaijiReport.UnescapeReference | scripts/generate_gaiji_report.py:110-115 | each of the five character references reads back as its character |
| GaijiReport.UnescapeOther | scripts/generate_gaiji_report.py:110-115 | any other character reads back as itself |
| GaijiReport.UnescapeEscape | scripts/generate_gaiji_report.py:110-115 | escaping loses nothing: reading the references back gives the original text |
| GaijiReport.BuildImgSrc | scripts/generate_gaiji_report.py:48-51 | an `http`/`https` source is kept; anything else gets `https://kotobank.jp` in front |
| GaijiReport.BuildImgSrcIsUrl | scripts/generate_gaiji_report.py:11 | the result is always an `http`/`https` URL, so building twice is building once |
| GaijiReport.Header | scripts/generate_gaiji_report.py:80-107 | 28 fixed lines before the rows |
| GaijiReport.RowTemplate | scripts/generate_gaiji_report.py:116-126 | seven lines per row |
| GaijiReport.RowLines | scripts/generate_gaiji_report.py:109-126 | a row's seven lines, from its escaped fields |
| GaijiReport.RowFieldsSafe | scripts/generate_gaiji_report.py:110-115 | id, keyword, href, built image source and transcription are all escaped, so none has a raw `<`, `>`, `"` or `'`; each reads back to its value; a NULL keyword, href or transcription renders as `""` |
| GaijiReport.Rendered | scripts/generate_gaiji_report.py:80-126 | the header plus seven lines per row |
| GaijiReport.Footer | scripts/generate_gaiji_report.py:128-131 | four closing lines |
| GaijiReport.RenderedHeader | scripts/generate_gaiji_report.py:80-107 | rows are only added after the header |
| GaijiReport.RenderedRow | scripts/generate_gaiji_report.py:109-126 | row `k` takes the seven lines after the header and the rows before it |
| GaijiReport.ReportLength | scripts/generate_gaiji_report.py:79-131 | the page has `32 + 7 * n` lines and ends with the four closing lines |
| GaijiReport.ReportTitle | scripts/generate_gaiji_report.py:96 | line 16 is the heading stating the number of rows, after the fixed head lines |
| GaijiReport.ReportRowAt | scripts/generate_gaiji_report.py:109-126 | the rows appear in query order, seven lines each, right after the header |
| GaijiReport.RenderReport | scripts/generate_gaiji_report.py:79-131 | the appending of `lines` gives the specified page |
| GaijiReport.QueryReportRows | scripts/generate_gaiji_report.py:67-74 | the JOIN gives one row per id present in both tables, in ascending id order, with the gaiji row's image source and transcription and the entry's keyword and href |
| GaijiReport.ReportMain | scripts/generate_gaiji_report.py:54-135 | an invalid table name raises and a missing database returns 2, both without a page; otherwise it returns 0, and the page text is the report's lines joined by newlines, over the JOIN's rows: one per id in both tables, in ascending `entry_id` order, with the gaiji row's image source and transcription and the entry's keyword and href |
| GaijiTranscriptions.Field | scripts/apply_gaiji_transcriptions.py:53-54 | `(row.get(key) or "").strip()` neither starts nor ends with whitespace |
| GaijiTranscriptions.RowsOf | scripts/apply_gaiji_transcriptions.py:47-50 | no header fields, or a missing `entry_id` or `gaiji_char` header, each fail with the script's message; otherwise the records are read |
| GaijiTranscriptions.KeptRowIff | scripts/apply_gaiji_transcriptions.py:53-57 | a record is kept exactly when its stripped `entry_id` and stripped `gaiji_char` are both non-empty, and it is kept as the parsed id and the stripped text |
| GaijiTranscriptions.CollectRowsSnoc | scripts/apply_gaiji_transcriptions.py:52-57 | the loop works record by record |
| GaijiTranscriptions.CollectRowsOk | scripts/apply_gaiji_transcriptions.py:52-57 | the records are read without error exactly when each one is |
| GaijiTranscriptions.CollectRowsKept | scripts/apply_gaiji_transcriptions.py:52-58 | a successful read returns the kept pairs in record order |
| GaijiTranscriptions.ReadRowsKept | scripts/apply_gaiji_transcriptions.py:44-58 | no more pairs than records, each a non-blank stripped transcription supplied by some record |
| GaijiTranscriptions.CollectRowsAfterError | scripts/apply_gaiji_transcriptions.py:57 | the first `int()` error ends the reading |
| GaijiTranscriptions.ReadRows | scripts/apply_gaiji_transcriptions.py:44-58 | the header checks and the appending loop return what `RowsOf` specifies |
| GaijiTranscriptions.LastFor | scripts/apply_gaiji_transcriptions.py:83 | the last pair for an id |
| GaijiTranscriptions.LastForIsLast | scripts/apply_gaiji_transcriptions.py:83 | no later pair has that id, and there is none when no pair names it |
| GaijiTranscriptions.ApplyCounts | scripts/apply_gaiji_transcriptions.py:83-91 | `updated + missing == len(rows)`; a pair counts as updated exactly when its id is a key of the table; the keys do not change |
| GaijiTranscriptions.ApplyRow | scripts/apply_gaiji_transcriptions.py:84-87 | the loop never changes an image source; each id's transcription is that of its last pair, or the old one when no pair names it |
| GaijiTranscriptions.ApplyTranscriptions | scripts/apply_gaiji_transcriptions.py:81-92 | the loop changes the table and the two counters as the apply fold specifies |
| GaijiTranscriptions.ApplyMain | scripts/apply_gaiji_transcriptions.py:61-95 | an invalid table name raises; a missing database or CSV returns 2; an error from `read_rows` propagates; no surviving pair returns 1; an id outside SQLite's signed 64-bit range raises `OverflowError` with the transaction uncommitted; all of these leave the table unchanged; otherwise every pair is applied and it returns 0 |
| Results.FilterMap | scripts/scrape_kotobank_jitsu.py:152-172 | an order-keeping filter of a list returns no more elements than it is given |
| Results.FilterMapAppend | scripts/scrape_kotobank_jitsu.py:152-172 | the filter works element by element |
| Results.FilterMapFrom | scripts/apply_gaiji_transcriptions.py:52-57 | every element kept is the value of some input |
| Results.FilterMapKeeps | scripts/scrape_kotobank_jitsu.py:152-172 | every input that has a value gives an element of the result |
| Results.Assign | scripts/scrape_kotobank_jitsu.py:228 | assigning to a dictionary keeps its keys |
| Results.LastAssign | scripts/scrape_kotobank_jitsu.py:228 | the last assignment to a key |
| Results.LastAssignIsLast | scripts/scrape_kotobank_jitsu.py:228 | no later assignment sets that key |
| Results.AssignValue | scripts/scrape_kotobank_jitsu.py:228 | the last assignment to a key wins, and a key that nothing sets keeps its value |
| Results.AssignSnoc | scripts/scrape_kotobank_jitsu.py:228 | one more assignment updates one key |
| Urls.RemoveUnsafe | scripts/scrape_kotobank_jitsu.py:202 | `urlsplit` first deletes tab, CR and LF |
| Urls.SplitNetloc | scripts/scrape_kotobank_jitsu.py:202 | the network location ends at the first `/`, `?` or `#` |
| Urls.UrlParseOfTail | scripts/scrape_kotobank_jitsu.py:202 | the parts of `scheme://host` plus a rest whose query split is known |
| Urls.PathAndQueryOfParts | scripts/collect_gaiji_images.py:98-101 | a URL built from a host, a plain path and a query parses back into those parts, and its path and query are the path with `?query` only when the query is non-empty |
| Urls.PathAndQueryShape | scripts/scrape_kotobank_jitsu.py:202-203 | a parsed path is empty or starts with `/`, holds no `?` or `#`, and the query holds no `#` |
| Urls.PathAndQuerySiteRelative | scripts/scrape_kotobank_jitsu.py:203 | path and query together are empty or start with `/` or `?`, and hold no `#` |

## Left out

- HTTP requests, lxml parsing and XPath evaluation. A page comes in as the values the scripts read from it: the link texts and hrefs, the image `src` attributes, and the description's child nodes. A request is a function parameter, and `None` stands for the `RequestException` that the loops catch.
- SQLite itself: connections, PRAGMAs, `ensure_schema`/`ensure_indexes`, `ALTER TABLE`, VACUUM and commits. The `NOT NULL` columns are plain strings in the row types, so they can never be NULL. The foreign key from the gaiji table to the entries table is not enforced. Only the row-level effect of each statement is modelled. CollectorMain, ReportMain and ApplyMain assume that every table they are given exists; the `sqlite3.OperationalError` ("no such table") that the first query raises otherwise is not modelled (scripts/collect_gaiji_images.py:163, scripts/generate_gaiji_report.py:67, scripts/apply_gaiji_transcriptions.py:84), and the gaiji table is created only by `ensure_gaiji_schema` (scripts/collect_gaiji_images.py:79-87).
- Threading and the blocking `Queue`. The consumer runs over a finite list of items. A list without the sentinel ends at its last item, where the real thread would block.
- `time.sleep`, `print` and logging, argparse plumbing, creating directories, and writing the report file. The report's page text is the method's result.
- `crawl_entry_pages_from_db`. That second run of the entry loop reads its rows from the table instead of a queue, and only its dispatch is modelled.
- `crawl_index_pages`: the page loop, its HTTP error handling and its running totals are not modelled. Its per-page extraction, upsert, skipped count and queue feeding are.
- An uncaught exception in a `main` is `Raised(message)`, not Python's traceback and exit status 1. An argparse error for a bad `--crawl` is exit 2, as argparse does.
- The internals of Python's `csv` module. The input is the header list and one map per record, and a field too short to fill is `None`.
- Strings.ParseInt: does not accept `int()`'s underscores or non-ASCII digits. Only an optional sign and ASCII digits around whitespace are modelled, and anything else is the `ValueError` case, whose message is shortened. Python's limit of 4300 digits for `int()` of a decimal string (`sys.int_max_str_digits`) is not modelled. Under that limit, a longer `entry_id` column makes `read_rows` raise `ValueError`, which the model reports as GaijiTranscriptions.ApplyMain's `OverflowError`. A longer digit run in an href makes `extract_entries` raise, while IndexPage.ExtractOne returns an entry.
- Strings.Lower maps `A`-`Z` and the Kelvin sign U+212A, the only characters whose `str.lower()` is an ASCII letter, and keeps every other character. U+0130 lowers to two characters, one of them not ASCII. The lowered items are only compared with the ASCII words `index`, `entries` and `kanji_entries`, so each comparison comes out as it does in Python, even though other characters are not lower-cased.
- Strings.IsSpace is the whitespace set of `str.isspace()`. The same set stands for `\s` in `re` and for the whitespace `str.split()` uses.
- Urls.UrlParse: covers only `http`/`https` URLs. It leaves out `urlparse`'s `ValueError` for malformed netlocs and its handling of IPv6 brackets. The `;params` split and fragments are modelled.
- GaijiReport.Unescape reads back only the five references `html.escape` writes. It is not all of `html.unescape`.
- GaijiReport.QueryReportRows returns NULL-free keywords and hrefs, because the entry table's schema declares them `NOT NULL`.
- Ids are unbounded integers (except in the transcription applier). In the crawler, an id that does not fit SQLite's signed 64-bit INTEGER makes `sqlite3` raise `OverflowError` when it is bound in `upsert_entries`, in the consumer's row lookup or in `update_entry_details`. The same happens in the collector for an out-of-range `--start-id` or `--end-id` bound in the candidate query. EntryStore.EntryTable.Upsert and GaijiCollector.CollectorMain do not model that exception: they insert or select such an id like any other. GaijiTranscriptions.ApplyMain does model it, as `Raised`.
- CrawlModes.CrawlerMain stops at the branch `main` takes. The crawls themselves are the consumer and extraction models above.
