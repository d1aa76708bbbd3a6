# YuGiOh rarity matrix — a verified model of its core

`ygo_rarity_matrix.py` reads a Yu-Gi-Oh! deck list. It asks a card API about every card. Cards the API does not know are looked up in local reference databases of alternate prints ("GOAT" and "Pre-Errata" versions). The result is a spreadsheet with one row per card and one column per print rarity; each cell lists the sets the card was printed in at that rarity, with their prices.

This project models the three data transformations at the heart of that program and proves their properties in Dafny.

- **Alias index** (`find_hits`, `find_main`; module `AliasIndex`, file `alias_index.dfy`).
  - The `.cdb` databases are read in sorted file-name order, and their rows in query order.
  - Each alternate id keeps the hit of its first row ("first seen wins").
  - The name is stripped and then classified by its "(GOAT)" or "(Pre-Errata)" marker.
  - The hits are sorted by name.
  - `find_main` maps requested alternate ids to their canonical ids.
- **Card aggregation** (`parse_card_data`; module `CardAggregator`, file `card_aggregator.dfy`).
  - A card's prints are grouped into a dict from rarity to a list of entries `"<set prefix> <price>$"`. The dict keeps its insertion order.
  - When a response holds several data records, the last one wins.
  - A response without `data` leaves the result empty.
  - A record without `card_sets` raises.
- **Matrix assembly** (the non-styling part of `data_to_excel`; module `RarityMatrix`, file `rarity_matrix.dfy`).
  - Cards are sorted stably by the key (extra-deck flag, type, name).
  - Columns are discovered: six base rarities, then, in a full report, every other rarity once, in first-seen order.
  - Rows and cells are built. A "Common" cell with more than `COMMON_LIMIT` = 3 entries shows three entries and a line ` (n weitere)`.

Supporting modules model the parts of Python the core relies on:

- `Text` (`text.dfy`): `str.strip`, `in`, `endswith`, `lower`, `"\n".join`, `split`, `str(int)` and code-point string `<`;
- `Lists` (`lists.dfy`): first-seen deduplication and filtering;
- `Sorting` (`sorting.dfy`): `sorted(key=...)` as a stable insertion sort, proved to be a sorted permutation that keeps equal keys in input order;
- `Wrappers` (`wrappers.dfy`): `Option`.

`Scenarios` (`scenarios.dfy`) works through concrete cases.

The loops of `find_hits`, `parse_card_data` and `data_to_excel` are methods (`FindHits`/`ScanRows`, `ParseCardData`/`GroupPrints`, `DiscoverRarities`/`BuildCell`/`BuildRow`/`DataToMatrix`). Each is proved equal to a function that defines its result, and the properties are proved as lemmas about those functions. `find_main`'s comprehension and the sort key are functions.

Inputs replace I/O:

- The directory listing and the query results become a `seq<Database>`: each database is a file name and the rows the query returns for it.
- The API response becomes a `Response` value.
- `find_main` receives the directory contents as a parameter instead of calling `find_hits` on the file system itself.

Two details of the output, as the code has them:

- The truncation line is `"\n (n weitere)"`, with a space before the parenthesis (`ygo_rarity_matrix.py:202`).
- Stored hit names are stripped of surrounding whitespace (`ygo_rarity_matrix.py:55`).

## Model

| member | source | states |
|---|---|---|
| Text.Strip | ygo_rarity_matrix.py:55 | the stripped name is no longer than the row name and neither starts nor ends with whitespace (Python's `str.isspace` set) |
| Text.StripSlice | ygo_rarity_matrix.py:55 | the stripped name is a contiguous slice of the row name, and every character before and after that slice is whitespace |
| Text.StripIdempotent | ygo_rarity_matrix.py:55 | stripping an already stripped name changes nothing |
| Text.Lower | ygo_rarity_matrix.py:168 | the lower-cased type has the same length, contains no ASCII capital and no Kelvin sign, maps each ASCII capital to its small letter, maps the Kelvin sign to `k`, and leaves every other character unchanged |
| Text.LowerIdempotent | ygo_rarity_matrix.py:168 | lower-casing twice is lower-casing once |
| Text.Contains | ygo_rarity_matrix.py:60 | a name that starts with the pattern contains it, and a pattern longer than the name is never contained |
| Text.EndsWith | ygo_rarity_matrix.py:43 | a file name ends with the suffix iff it is some string followed by that suffix |
| Text.Join | ygo_rarity_matrix.py:202-206 | joining no entries gives the empty text; otherwise the text starts with the first entry, and with two or more entries the separator follows it directly |
| Text.NatToString | ygo_rarity_matrix.py:202 | `str(n)` is at least one character long, made of decimal digits only, and has no leading zero |
| Text.StrLt | ygo_rarity_matrix.py:72 | a string never sorts before itself, and a proper prefix sorts before the longer string |
| Text.StrLtFirstDifference | ygo_rarity_matrix.py:72 | string `<` holds iff the first string is a proper prefix of the second or has the smaller character at the first position where they differ, as Python compares code points |
| Text.Split | ygo_rarity_matrix.py:91 | splitting yields at least one part, no part contains the separator, and joining the parts with the separator gives the input back |
| Text.SplitJoin | ygo_rarity_matrix.py:202-206 | splitting a join of separator-free pieces at that separator gives back exactly those pieces (so a `"\n"`-join of line-break-free entries reads back line by line) |
| Text.DecimalRoundTrip | ygo_rarity_matrix.py:202 | the decimal text written for the count of omitted entries reads back as that count |
| Sorting.StrLtStrictTotalOrder | ygo_rarity_matrix.py:72 | Python's string `<` is irreflexive, transitive and total, so sorting by name is well defined |
| Sorting.SortBy | ygo_rarity_matrix.py:72 | `sorted(key=...)` returns a permutation of its input (same multiset, same length) |
| Sorting.SortBySorted | ygo_rarity_matrix.py:72 | for a strict total order on keys, the sorted list has no element whose key is smaller than an earlier one's |
| Sorting.SortByStable | ygo_rarity_matrix.py:168 | the elements that share a key appear in the sorted list in exactly their input order |
| Sorting.SortByKeepsDistinct | ygo_rarity_matrix.py:72 | sorting cannot introduce two elements with the same id |
| Lists.Filter | ygo_rarity_matrix.py:43 | the filtered list is no longer than the input and holds exactly the elements that satisfy the predicate |
| Lists.FilterMultiset | ygo_rarity_matrix.py:43 | every element that satisfies the predicate is kept exactly as often as it occurs, and no other element is kept |
| Lists.FilterAppend | ygo_rarity_matrix.py:43 | filtering a concatenation is concatenating the filtered parts, so the kept elements stay in input order |
| Lists.AppendMissing | ygo_rarity_matrix.py:173-176 | appending the not-yet-present elements keeps the initial list as a prefix, contains exactly the elements of both lists and stays duplicate-free |
| Lists.AppendMissingFirstSeen | ygo_rarity_matrix.py:173-176 | the appended elements are new, pairwise different and in the order of their first occurrence |
| Lists.AppendMissingSnoc | ygo_rarity_matrix.py:175-176 | one more element is appended exactly when it is not already present |
| AliasIndex.Classify | ygo_rarity_matrix.py:60 | a name is GOAT iff it contains "(GOAT)", Pre-Errata iff it contains "(Pre-Errata)" and not "(GOAT)", Unknown iff it contains neither |
| AliasIndex.Databases | ygo_rarity_matrix.py:43 | the databases read are the listed files whose names end in ".cdb", each as often as listed and no other, in file-name order |
| AliasIndex.ScanOrderMembers | ygo_rarity_matrix.py:43-53 | the scan meets exactly the rows of the `.cdb` databases, each tagged with the name of the database it came from |
| AliasIndex.EntriesMembers | ygo_rarity_matrix.py:47-53 | the rows met across several databases are exactly the rows of one of them, tagged with that database's name |
| AliasIndex.EntriesAppend | ygo_rarity_matrix.py:47-53 | the rows of a list of databases are those of its first part followed by those of the rest, so databases are read one after the other |
| AliasIndex.MakeHit | ygo_rarity_matrix.py:54-68 | a hit carries its row's alternate id, main id and database, the row's name stripped, and the marker class of the stripped name |
| AliasIndex.KeepFirstSnoc | ygo_rarity_matrix.py:57-70 | one row extends the hits so far by at most one hit: the row's alt id joins the known ids, the hit list is unchanged iff that id was already known, and otherwise the row's own hit is appended |
| AliasIndex.KeepFirst | ygo_rarity_matrix.py:53-58 | the hits kept from a scan carry exactly the alternate ids met in that scan |
| AliasIndex.FirstIndex | ygo_rarity_matrix.py:57-58 | the first row with a given alternate id: it has that id and no earlier row does |
| AliasIndex.KeepFirstDistinct | ygo_rarity_matrix.py:53-70 | the scan keeps at most one hit per alternate id |
| AliasIndex.KeepFirstIsFirst | ygo_rarity_matrix.py:53-70 | every kept hit is the hit of the first row with its alternate id |
| AliasIndex.KeepFirstOrdered | ygo_rarity_matrix.py:53-70 | before sorting, the hits are in the order in which their alternate ids first occur in the scan |
| AliasIndex.ScanRows | ygo_rarity_matrix.py:53-70 | the row loop for one database extends the kept hits and the encountered ids exactly as `KeepFirst` does for that database's rows |
| AliasIndex.Hits | ygo_rarity_matrix.py:72-73 | the returned hits are a rearrangement of the scan's hits into name order |
| AliasIndex.HitsMembers | ygo_rarity_matrix.py:72 | sorting the hits neither adds nor removes a hit |
| AliasIndex.HitsDistinct | ygo_rarity_matrix.py:53-73 | `find_hits` returns at most one hit per alternate id |
| AliasIndex.HitsStable | ygo_rarity_matrix.py:72 | hits with equal names keep the order in which the scan found them |
| AliasIndex.HitsFirstSeen | ygo_rarity_matrix.py:43-73 | the hits cover exactly the alternate ids of all scanned rows; each hit, stripped name and marker class included, comes from the first row with its id, with databases taken in sorted order |
| AliasIndex.FindHits | ygo_rarity_matrix.py:39-73 | the loop returns the specified hit list: one hit per alternate id, sorted by name, covering every scanned id, each made from its id's first row |
| AliasIndex.SelectMain | ygo_rarity_matrix.py:36 | the filter yields at most one main id per hit |
| AliasIndex.SelectMainMembers | ygo_rarity_matrix.py:36 | a main id is returned iff some hit with a requested alternate id carries it |
| AliasIndex.SelectMainAppend | ygo_rarity_matrix.py:36 | the filter works hit by hit, so its output follows hit order |
| AliasIndex.SelectMainIgnoresUnmatched | ygo_rarity_matrix.py:29-36 | requested ids that match no hit make no difference to the result |
| AliasIndex.SelectMainCount | ygo_rarity_matrix.py:36 | with one hit per alternate id, the result has exactly one main id per requested id that some hit carries |
| AliasIndex.Selected | ygo_rarity_matrix.py:36 | the hits the filter keeps are exactly the hits with a requested alternate id, the `k`-th of them giving the `k`-th main id returned |
| AliasIndex.SelectedAppend | ygo_rarity_matrix.py:36 | the filter works hit by hit: the kept hits of a concatenation are those of the first part followed by those of the second, so they stay in hit order |
| AliasIndex.SelectedDistinct | ygo_rarity_matrix.py:36 | with one hit per alternate id, the kept hits also have pairwise different alternate ids |
| AliasIndex.FindMainResolves | ygo_rarity_matrix.py:25-36 | a main id is returned iff it is the canonical id (the first row in scan order decides) of some requested id some database knows; the number of ids returned equals the number of such requested ids |
| AliasIndex.FindMainSources | ygo_rarity_matrix.py:25-36 | position by position, the `k`-th main id returned is the canonical id of the `k`-th kept hit's alternate id, and those alternate ids are pairwise different and are exactly the known requested ids, so each known requested id contributes its own canonical id once |
| AliasIndex.ResolveOne | ygo_rarity_matrix.py:25-36 | asked about a single id, `find_main` returns its canonical id if some database knows it and nothing otherwise |
| AliasIndex.FindMain | ygo_rarity_matrix.py:25-36 | returns the filtered hit list: its members are exactly the canonical ids of the known requested ids, its length is the number of known requested ids, and its `k`-th entry is the canonical id of the `k`-th kept hit's alternate id |
| CardAggregator.SetPrefix | ygo_rarity_matrix.py:91 | the prefix is the part of the set code before its first `-`, or the whole code when it has none |
| CardAggregator.FormatEntry | ygo_rarity_matrix.py:91 | an entry is the set prefix, one space, the price and a closing `$`, and nothing else |
| CardAggregator.FormatEntryOfCode | ygo_rarity_matrix.py:91 | a set code `P-rest` with no `-` in `P` is listed as `P`, a space, the price and `$` (so "LOB-EN001" gives "LOB <price>$") |
| CardAggregator.Bucket | ygo_rarity_matrix.py:198 | `get(r, [])` gives the list stored under `r`, or the empty list when there is none |
| CardAggregator.AddEntry | ygo_rarity_matrix.py:90-91 | the print's entry is appended to its rarity's list, and a rarity not yet present is appended to the key order |
| CardAggregator.AddEntryOthers | ygo_rarity_matrix.py:90-91 | adding an entry leaves every other rarity's list unchanged and adds no key but the print's rarity |
| CardAggregator.AddEntryWellFormed | ygo_rarity_matrix.py:90-91 | `setdefault` followed by `append` keeps every key in the order once and every list non-empty |
| CardAggregator.Group | ygo_rarity_matrix.py:85-91 | the rarity dict lists each key once in its order, has no empty list, and its keys are exactly the rarities of the prints |
| CardAggregator.GroupBuckets | ygo_rarity_matrix.py:88-91 | each rarity's list holds the entries of exactly the prints of that rarity, in print order, duplicates kept |
| CardAggregator.GroupOrder | ygo_rarity_matrix.py:90 | the dict's keys are in the order in which their rarities first appear among the prints |
| CardAggregator.Normalize | ygo_rarity_matrix.py:84-94 | the stored card has the record's name and frame type, and a rarity dict with each key once and no empty list |
| CardAggregator.NormalizeBuckets | ygo_rarity_matrix.py:84-94 | in the stored card, each rarity's list holds exactly the entries of the record's prints of that rarity, in print order |
| CardAggregator.GroupPrints | ygo_rarity_matrix.py:85-91 | the `setdefault(...).append` loop builds exactly the specified rarity dict |
| CardAggregator.ParseCardData | ygo_rarity_matrix.py:75-100 | no `data` key gives an empty result; a record without `card_sets` raises; otherwise the last record determines name, type and rarity dict, and an empty `data` list gives an empty result |
| RarityMatrix.IsExtraDeck | ygo_rarity_matrix.py:168 | on a type written in small ASCII letters, the test is membership in fusion, synchro, xyz, link |
| RarityMatrix.ExtraDeckCaseInsensitive | ygo_rarity_matrix.py:168 | a type and its lower-cased form are both extra-deck types or both not |
| RarityMatrix.CardKey | ygo_rarity_matrix.py:168 | the key's flag is 0 or 1, and 1 exactly for extra-deck types; its type and name are the card's |
| RarityMatrix.KeyLt | ygo_rarity_matrix.py:168 | a smaller flag always sorts first, a larger flag never does; between keys with equal flag and different types the type decides, and between keys with equal flag and type the name decides |
| RarityMatrix.KeyLtStrictTotalOrder | ygo_rarity_matrix.py:168 | Python's lexicographic `<` on the key tuple (flag, type, name) is a strict total order |
| RarityMatrix.SortCards | ygo_rarity_matrix.py:168 | the sorted cards are a rearrangement of the input: same length, same multiset |
| RarityMatrix.SortCardsOrder | ygo_rarity_matrix.py:168 | the sorted cards are a permutation of the input; every extra-deck card (type lower-cased among fusion, synchro, xyz, link) comes after every other card; within each block the cards are ordered by type, then by name |
| RarityMatrix.SortCardsStable | ygo_rarity_matrix.py:168 | cards with equal keys keep their input order |
| RarityMatrix.AllRaritiesMembers | ygo_rarity_matrix.py:173-174 | a rarity is among the scanned keys iff some card's rarity dict has it |
| RarityMatrix.Columns | ygo_rarity_matrix.py:171-177 | the columns start with the six base rarities and no column repeats |
| RarityMatrix.ColumnsShape | ygo_rarity_matrix.py:171-177 | a short report has exactly the base; a full report has exactly the base plus every rarity of some card |
| RarityMatrix.ColumnsFirstSeen | ygo_rarity_matrix.py:172-176 | the columns after the base are non-base rarities of the cards, in the order in which the sorted cards first show them |
| RarityMatrix.DiscoverRarities | ygo_rarity_matrix.py:171-177 | the nested discovery loop computes exactly the specified columns |
| RarityMatrix.MoreLine | ygo_rarity_matrix.py:202 | the count line has no line break, so it stays one line of the cell |
| RarityMatrix.MoreLineLayout | ygo_rarity_matrix.py:202 | the count line starts with " (", ends with " weitere)", and between them holds decimal digits without a leading zero that read back as the count |
| RarityMatrix.MoreLineFormat | ygo_rarity_matrix.py:202 | the text `"\n ({} weitere)".format(n)` is a line break followed by the count line |
| RarityMatrix.CellText | ygo_rarity_matrix.py:199-206 | a cell's text is empty exactly when its list is empty or holds one empty entry |
| RarityMatrix.Cell | ygo_rarity_matrix.py:198-206 | a rarity the card has no list for gives an empty cell; otherwise the cell is the text of that rarity's list |
| RarityMatrix.TruncatedLines | ygo_rarity_matrix.py:202 | the kept entries joined, then the count line, read back line by line as those entries followed by the count line |
| RarityMatrix.CommonCellLines | ygo_rarity_matrix.py:199-202 | an overfull "Common" cell reads as its first `COMMON_LIMIT` entries, then the line giving how many were left out |
| RarityMatrix.PlainCellLines | ygo_rarity_matrix.py:203-206 | any other non-empty cell reads as all of its bucket's entries, in order |
| RarityMatrix.EntriesForNewlineFree | ygo_rarity_matrix.py:91 | entries built from line-break-free set codes and prices are non-empty and contain no line break |
| RarityMatrix.CellOfPrints | ygo_rarity_matrix.py:198-206 | a card's cell is the cell text of the entries of its prints of that rarity, and it is empty iff no print has that rarity |
| RarityMatrix.BuildCell | ygo_rarity_matrix.py:198-206 | the branches that build one cell compute exactly the specified cell of that card and rarity |
| RarityMatrix.BuildRow | ygo_rarity_matrix.py:196-206 | the row is the card's type, its name, then for every column the cell of that card and rarity, so its length is 2 + the number of rarities |
| RarityMatrix.DataToMatrix | ygo_rarity_matrix.py:168-206 | the header is "Type", "Name" and the discovered columns; there is one row per card, in sorted order, each the card's row under that header |
| Scenarios.SinglePrint | ygo_rarity_matrix.py:88-91 | a single print makes one key, its rarity, whose list is that print's entry |
| Scenarios.CommonTruncationExample | ygo_rarity_matrix.py:199-202 | five "Common" entries show as the first three and the line " (2 weitere)" |
| Scenarios.ExampleKeys | ygo_rarity_matrix.py:168 | the capitalised types Spell and Trap get flag 0 and Xyz and Link get flag 1, because the test lower-cases the type first |
| Scenarios.RowOrderExample | ygo_rarity_matrix.py:168 | Spell, Xyz, Trap and Link cards of one name sort as Spell, Trap, Link, Xyz |
| Scenarios.ColumnDiscoveryExample | ygo_rarity_matrix.py:172-177 | cards showing Common and X, then Rare and X, with X not a base rarity, give the six base columns and X once |

## Left out

- SQLite access and the directory listing (`ygo_rarity_matrix.py:43`, `48-52`). The file names and the rows each query returns are inputs.
  - The query's `WHERE` and `ORDER BY` (`ygo_rarity_matrix.py:17-23`) are not modelled: any rows may be given.
  - Nothing is assumed about their order.
- The JSON `dumps`/`loads` copy in `find_main` (`ygo_rarity_matrix.py:33`). It is an identity on this data.
- The `int`/`str` conversions of ids (`ygo_rarity_matrix.py:29`, `36`). Ids are integers throughout, and `find_main`'s input set is built from a sequence of integers.
- `decklist_request` (`ygo_rarity_matrix.py:101-160`). It consists of HTTP requests, progress output computed in floating point, and writing `error_cards.ydk`.
- All openpyxl work, which is spreadsheet styling and file output:
  - the workbook and header cells, fills, alignment, borders, freeze panes, column widths;
  - saving and the returned flag (`ygo_rarity_matrix.py:180-194`, `207-251`).
- `main`'s reading of `.ydk` files (`ygo_rarity_matrix.py:257-271`) and every console `print`.
- CardAggregator.ParseCardData: a `KeyError` is modelled only for a missing `card_sets`. A missing `name`, `frameType`, `set_code`, `set_rarity` or `set_price` is not modelled: the datatypes always carry those fields.
- RarityMatrix.DataToMatrix: it takes normalised cards. The empty dict that `parse_card_data` returns for an unknown card would make the source raise a `KeyError` at `card["type"]`; that crash is not modelled.
- Text.Lower: it lower-cases only ASCII capitals and the Kelvin sign. It does not model the rest of Unicode case mapping. The extra-deck test built on it still agrees with Python's on every type: for every other character, either the character is its own lower case, or its lower case contains a character that is not an ASCII letter.
- `full_report` and `alternate_bg_color` are Python truth values; `full_report` is a `bool` here. The background colouring is styling and is not modelled.
- RarityMatrix.DataToMatrix: a card whose key order and list map disagree is no Python dict. The contract still holds for such input. Cards built by `ParseCardData` always agree, as `Group` ensures `WellFormed`.
- Lists.Filter: its own contract states only length and membership. Multiplicity and order are stated in `Lists.FilterMultiset` and `Lists.FilterAppend`, which keeps the cost of the many proofs that use `Filter` low.
