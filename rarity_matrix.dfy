/**
 * The matrix assembler: the normalised cards become the rows of the rarity
 * matrix, sorted with the extra-deck cards last, under a header of the type,
 * the name and one column per rarity.
 */
module RarityMatrix {

  import opened Text
  import opened Lists
  import opened Sorting
  import opened CardAggregator

  /** The rarity columns every matrix has, in this order. */
  const BaseRarities: seq<string> :=
    ["Common", "Rare", "Super Rare", "Ultra Rare", "Secret Rare", "Ultimate Rare"]

  /** `COMMON_LIMIT`: the most entries a "Common" cell shows. */
  const CommonLimit: nat := 3

  /** The lower-cased frame types of the extra deck. */
  const ExtraDeckTypes: seq<string> := ["fusion", "synchro", "xyz", "link"]

  /**
   * `card["type"].lower() in ["fusion", "synchro", "xyz", "link"]`: on a type
   * written in lower-case letters this is plain membership in that list.
   */
  predicate IsExtraDeck(cardType: string)
    ensures (forall k :: 0 <= k < |cardType| ==> 'a' <= cardType[k] <= 'z') ==>
      (IsExtraDeck(cardType) <==> cardType in ExtraDeckTypes)
  {
    assert (forall k :: 0 <= k < |cardType| ==> 'a' <= cardType[k] <= 'z') ==> Lower(cardType) == cardType;
    Lower(cardType) in ExtraDeckTypes
  }

  /** The test ignores case: a type and its lower-case form are both extra-deck or both not. */
  lemma ExtraDeckCaseInsensitive(cardType: string)
    ensures IsExtraDeck(cardType) <==> IsExtraDeck(Lower(cardType))
  {
    LowerIdempotent(cardType);
  }

  /** The tuple `(flag, type, name)` that the rows are sorted by. */
  datatype SortKey = SortKey(deck: int, cardType: string, name: string)

  /** The flag is 1 exactly for the extra-deck types and 0 otherwise; type and name follow. */
  function CardKey(card: NormalizedCard): (k: SortKey)
    ensures k.deck == 0 || k.deck == 1
    ensures k.deck == 1 <==> IsExtraDeck(card.cardType)
    ensures k.cardType == card.cardType && k.name == card.name
  {
    SortKey(if IsExtraDeck(card.cardType) then 1 else 0, card.cardType, card.name)
  }

  /**
   * Python's `<` on such tuples: lexicographic, each part by its own `<`.
   * The flag decides first, then the type, and equal flags and types leave
   * the name to decide.
   */
  predicate KeyLt(a: SortKey, b: SortKey)
    ensures a.deck < b.deck ==> KeyLt(a, b)
    ensures KeyLt(a, b) ==> a.deck <= b.deck
    ensures a.deck == b.deck && a.cardType != b.cardType ==> (KeyLt(a, b) <==> StrLt(a.cardType, b.cardType))
    ensures a.deck == b.deck && a.cardType == b.cardType ==> (KeyLt(a, b) <==> StrLt(a.name, b.name))
  {
    StrLtIrreflexive(a.cardType);
    || a.deck < b.deck
    || (a.deck == b.deck && StrLt(a.cardType, b.cardType))
    || (a.deck == b.deck && a.cardType == b.cardType && StrLt(a.name, b.name))
  }

  lemma KeyLtStrictTotalOrder()
    ensures StrictTotalOrder(KeyLt)
  {
    forall a: SortKey
      ensures !KeyLt(a, a)
    {
      StrLtIrreflexive(a.cardType);
      StrLtIrreflexive(a.name);
    }
    forall a: SortKey, b: SortKey, c: SortKey | KeyLt(a, b) && KeyLt(b, c)
      ensures KeyLt(a, c)
    {
      if StrLt(a.cardType, b.cardType) && StrLt(b.cardType, c.cardType) {
        StrLtTransitive(a.cardType, b.cardType, c.cardType);
      }
      if StrLt(a.name, b.name) && StrLt(b.name, c.name) {
        StrLtTransitive(a.name, b.name, c.name);
      }
    }
    forall a: SortKey, b: SortKey
      ensures a == b || KeyLt(a, b) || KeyLt(b, a)
    {
      StrLtTrichotomous(a.cardType, b.cardType);
      StrLtTrichotomous(a.name, b.name);
    }
  }

  /** `data_sorted`: the cards sorted (stably) by their key, a rearrangement of the input. */
  function SortCards(cards: seq<NormalizedCard>): (r: seq<NormalizedCard>)
    ensures |r| == |cards|
    ensures multiset(r) == multiset(cards)
  {
    SortBy(cards, CardKey, KeyLt)
  }

  /**
   * The sorted cards are the input cards; every extra-deck card comes after
   * every other card; within each of the two blocks the cards are ordered by
   * type and, within one type, by name.
   */
  lemma SortCardsOrder(cards: seq<NormalizedCard>)
    ensures multiset(SortCards(cards)) == multiset(cards)
    ensures forall i, j :: 0 <= i < j < |SortCards(cards)| && IsExtraDeck(SortCards(cards)[i].cardType) ==>
      IsExtraDeck(SortCards(cards)[j].cardType)
    ensures forall i, j ::
      (0 <= i < j < |SortCards(cards)| &&
       IsExtraDeck(SortCards(cards)[i].cardType) == IsExtraDeck(SortCards(cards)[j].cardType)) ==>
      && !StrLt(SortCards(cards)[j].cardType, SortCards(cards)[i].cardType)
      && (SortCards(cards)[i].cardType == SortCards(cards)[j].cardType ==>
            !StrLt(SortCards(cards)[j].name, SortCards(cards)[i].name))
  {
    KeyLtStrictTotalOrder();
    SortBySorted(cards, CardKey, KeyLt);
  }

  /** Cards with equal keys keep their input order (`sorted` is stable). */
  lemma SortCardsStable(cards: seq<NormalizedCard>, k: SortKey)
    ensures KeyFilter(SortCards(cards), CardKey, k) == KeyFilter(cards, CardKey, k)
  {
    KeyLtStrictTotalOrder();
    SortByStable(cards, CardKey, KeyLt, k);
  }

  /** The keys of every card's rarity dict, card after card. */
  function AllRarities(cards: seq<NormalizedCard>): seq<string>
  {
    if cards == [] then []
    else AllRarities(cards[..|cards| - 1]) + cards[|cards| - 1].rarity.order
  }

  lemma {:induction false} AllRaritiesMembers(cards: seq<NormalizedCard>, r: string)
    ensures r in AllRarities(cards) <==> exists c :: c in cards && r in c.rarity.order
  {
    if cards != [] {
      var front, last := cards[..|cards| - 1], cards[|cards| - 1];
      AllRaritiesMembers(front, r);
      assert cards == front + [last];
      if r in last.rarity.order {
        assert last in cards;
      }
      if exists c :: c in front && r in c.rarity.order {
        var c :| c in front && r in c.rarity.order;
        assert c in cards;
      }
    }
  }

  /**
   * `rarities`: the base columns, then, in a full report, every other rarity
   * the (sorted) cards show; the base comes first and no column repeats.
   */
  function Columns(cards: seq<NormalizedCard>, fullReport: bool): (cs: seq<string>)
    ensures |cs| >= |BaseRarities| && cs[..|BaseRarities|] == BaseRarities
    ensures Distinct(cs)
  {
    assert Distinct(BaseRarities);
    if fullReport then AppendMissing(BaseRarities, AllRarities(cards)) else BaseRarities
  }

  /**
   * A short report has only the base columns, and a full report has every
   * rarity some card shows and no other.
   */
  lemma ColumnsShape(cards: seq<NormalizedCard>, fullReport: bool)
    ensures !fullReport ==> Columns(cards, fullReport) == BaseRarities
    ensures fullReport ==> forall r :: r in Columns(cards, fullReport) <==>
      r in BaseRarities || exists c :: c in cards && r in c.rarity.order
  {
    forall r | fullReport {
      AllRaritiesMembers(cards, r);
    }
  }

  /**
   * The columns after the base ones are rarities outside the base, in the
   * order in which the cards, taken in turn, first show them.
   */
  lemma ColumnsFirstSeen(cards: seq<NormalizedCard>)
    ensures forall i :: |BaseRarities| <= i < |Columns(cards, true)| ==>
      Columns(cards, true)[i] in AllRarities(cards) && Columns(cards, true)[i] !in BaseRarities
    ensures forall i, j :: |BaseRarities| <= i < j < |Columns(cards, true)| ==>
      IndexOf(AllRarities(cards), Columns(cards, true)[i]) < IndexOf(AllRarities(cards), Columns(cards, true)[j])
  {
    AppendMissingFirstSeen(BaseRarities, AllRarities(cards));
  }

  /**
   * The line that reports how many "Common" entries a cell leaves out: no
   * line break, " (", the count in decimal without leading zeros, " weitere)".
   */
  function MoreLine(n: nat): (m: string)
    ensures '\n' !in m
  {
    " (" + NatToString(n) + " weitere)"
  }

  /** The count line reads back as the count: its digits, in decimal, are `n`. */
  lemma MoreLineLayout(n: nat)
    ensures var m := MoreLine(n);
      && |m| >= 12 && m[..2] == " (" && m[|m| - 9..] == " weitere)"
      && (forall k :: 2 <= k < |m| - 9 ==> '0' <= m[k] <= '9')
      && DecimalValue(m[2..|m| - 9]) == n
      && (|m| > 12 ==> m[2] != '0')
  {
    var digits := NatToString(n);
    DecimalRoundTrip(n);
    var m := " (" + digits + " weitere)";
    assert m[2..|m| - 9] == digits;
  }

  /**
   * The text of a cell in the column `rarity` whose bucket is `sets`; it is
   * empty exactly when the bucket has no entry or one empty entry.
   */
  function CellText(rarity: string, sets: seq<string>): (t: string)
    ensures t == "" <==> sets == [] || sets == [""]
  {
    if rarity == "Common" && |sets| > CommonLimit then
      Join(sets[..CommonLimit], '\n') + "\n" + MoreLine(|sets| - CommonLimit)
    else Join(sets, '\n')
  }

  /**
   * The cell of `card` in the column `rarity`: a rarity the card has no list
   * for gives the empty cell, as `get(rarity, [])` does.
   */
  function Cell(card: NormalizedCard, rarity: string): (t: string)
    ensures rarity !in card.rarity.sets ==> t == ""
    ensures rarity in card.rarity.sets ==> t == CellText(rarity, card.rarity.sets[rarity])
  {
    CellText(rarity, Bucket(card.rarity, rarity))
  }

  /** The lines kept, then the count line: splitting gives them back. */
  lemma TruncatedLines(kept: seq<string>, n: nat)
    requires |kept| >= 1
    requires forall k :: 0 <= k < |kept| ==> '\n' !in kept[k]
    ensures Split(Join(kept, '\n') + "\n" + MoreLine(n), '\n') == kept + [MoreLine(n)]
  {
    JoinSnoc(kept, MoreLine(n), '\n');
    assert forall k :: 0 <= k < |kept| + 1 ==> '\n' !in (kept + [MoreLine(n)])[k];
    SplitJoin(kept + [MoreLine(n)], '\n');
  }

  /** The text `"\n ({} weitere)".format(n)` appended to `prefix` is a line break and the count line. */
  lemma MoreLineFormat(prefix: string, n: nat)
    ensures prefix + "\n (" + NatToString(n) + " weitere)" == prefix + "\n" + MoreLine(n)
  {
  }

  /**
   * An overfull "Common" cell, read line by line, holds the first
   * `CommonLimit` entries and then the line with the count of the rest.
   */
  lemma CommonCellLines(sets: seq<string>)
    requires |sets| > CommonLimit
    requires forall k :: 0 <= k < |sets| ==> '\n' !in sets[k]
    ensures Split(CellText("Common", sets), '\n') == sets[..CommonLimit] + [MoreLine(|sets| - CommonLimit)]
  {
    var kept, n := sets[..CommonLimit], |sets| - CommonLimit;
    assert forall k :: 0 <= k < |kept| ==> kept[k] == sets[k];
    var text := Join(kept, '\n') + "\n" + MoreLine(n);
    assert CellText("Common", sets) == text;
    TruncatedLines(kept, n);
    assert Split(text, '\n') == kept + [MoreLine(n)];
  }

  /**
   * Any other cell with a non-empty bucket, read line by line, holds the
   * bucket's entries, all of them and in order.
   */
  lemma PlainCellLines(rarity: string, sets: seq<string>)
    requires sets != [] && !(rarity == "Common" && |sets| > CommonLimit)
    requires forall k :: 0 <= k < |sets| ==> '\n' !in sets[k]
    ensures Split(CellText(rarity, sets), '\n') == sets
  {
    SplitJoin(sets, '\n');
  }

  /** The prints of `cs` hold no line break in their set code or price. */
  predicate NewlineFree(cs: seq<CardSet>)
  {
    forall k :: 0 <= k < |cs| ==> '\n' !in cs[k].setCode && '\n' !in cs[k].setPrice
  }

  lemma {:induction false} EntriesForNewlineFree(cs: seq<CardSet>, r: string)
    requires NewlineFree(cs)
    ensures forall k :: 0 <= k < |EntriesFor(cs, r)| ==> '\n' !in EntriesFor(cs, r)[k]
    ensures forall k :: 0 <= k < |EntriesFor(cs, r)| ==> EntriesFor(cs, r)[k] != ""
  {
    if cs != [] {
      var front, c := cs[..|cs| - 1], cs[|cs| - 1];
      EntriesForNewlineFree(front, r);
      assert '\n' !in SetPrefix(c.setCode);
      assert FormatEntry(c)[|FormatEntry(c)| - 1] == '$';
    }
  }

  /**
   * From the prints to the cell: for a card made from a data record, a cell
   * is the cell text of the entries of the prints of its rarity, which hold
   * no line break (so `CommonCellLines` and `PlainCellLines` read them back), and it is empty exactly
   * when no print has that rarity.
   */
  lemma CellOfPrints(info: CardInfo, rarity: string)
    requires info.cardSets.Some? && NewlineFree(info.cardSets.value)
    ensures Cell(Normalize(info), rarity) == CellText(rarity, EntriesFor(info.cardSets.value, rarity))
    ensures forall k :: 0 <= k < |EntriesFor(info.cardSets.value, rarity)| ==>
      '\n' !in EntriesFor(info.cardSets.value, rarity)[k]
    ensures Cell(Normalize(info), rarity) == "" <==> EntriesFor(info.cardSets.value, rarity) == []
  {
    GroupBuckets(info.cardSets.value, rarity);
    EntriesForNewlineFree(info.cardSets.value, rarity);
  }

  lemma AllRaritiesStep(cards: seq<NormalizedCard>, i: nat)
    requires i < |cards|
    ensures AllRarities(cards[..i + 1]) == AllRarities(cards[..i]) + cards[i].rarity.order
  {
    assert cards[..i + 1][..i] == cards[..i];
  }

  lemma DiscoverStep(seen: seq<string>, keys: seq<string>, j: nat)
    requires j < |keys|
    ensures AppendMissing(BaseRarities, seen + keys[..j + 1]) ==
      if keys[j] in AppendMissing(BaseRarities, seen + keys[..j]) then AppendMissing(BaseRarities, seen + keys[..j])
      else AppendMissing(BaseRarities, seen + keys[..j]) + [keys[j]]
  {
    assert seen + keys[..j + 1] == (seen + keys[..j]) + [keys[j]];
    AppendMissingSnoc(BaseRarities, seen + keys[..j], keys[j]);
  }

  /**
   * Column discovery: in a full report every rarity of every card, scanned
   * in order, is appended unless already a column.
   */
  method DiscoverRarities(dataSorted: seq<NormalizedCard>, fullReport: bool) returns (rarities: seq<string>)
    ensures rarities == Columns(dataSorted, fullReport)
  {
    rarities := BaseRarities;
    if fullReport {
      for i := 0 to |dataSorted|
        invariant rarities == AppendMissing(BaseRarities, AllRarities(dataSorted[..i]))
      {
        var keys := dataSorted[i].rarity.order;
        ghost var seen := AllRarities(dataSorted[..i]);
        assert seen + keys[..0] == seen;
        for j := 0 to |keys|
          invariant rarities == AppendMissing(BaseRarities, seen + keys[..j])
        {
          DiscoverStep(seen, keys, j);
          if keys[j] !in rarities {
            rarities := rarities + [keys[j]];
          }
        }
        assert keys[..|keys|] == keys;
        AllRaritiesStep(dataSorted, i);
      }
      assert dataSorted[..|dataSorted|] == dataSorted;
    }
  }

  /**
   * `row` is the row of `card` under the header `columnNames`: its type, its
   * name, then in every rarity column the card's cell for that rarity.
   */
  predicate IsRowOf(row: seq<string>, card: NormalizedCard, columnNames: seq<string>)
  {
    && |row| == |columnNames| >= 2
    && row[0] == card.cardType && row[1] == card.name
    && forall j :: 2 <= j < |row| ==> row[j] == Cell(card, columnNames[j])
  }

  /**
   * The text written under the column `rarity` for `card`: its list joined
   * by line breaks, an overfull "Common" list cut to its first entries and a
   * count line.
   */
  method BuildCell(card: NormalizedCard, rarity: string) returns (cell: string)
    ensures cell == Cell(card, rarity)
  {
    var sets := Bucket(card.rarity, rarity);
    if rarity == "Common" {
      if |sets| > CommonLimit {
        MoreLineFormat(Join(sets[..CommonLimit], '\n'), |sets| - CommonLimit);
        cell := Join(sets[..CommonLimit], '\n') + "\n (" + NatToString(|sets| - CommonLimit) + " weitere)";
      } else {
        cell := Join(sets, '\n');
      }
    } else {
      cell := Join(sets, '\n');
    }
  }

  /** One row of the matrix: the type, the name and one cell per column. */
  method BuildRow(card: NormalizedCard, rarities: seq<string>) returns (row: seq<string>)
    ensures IsRowOf(row, card, ["Type", "Name"] + rarities)
  {
    ghost var columnNames := ["Type", "Name"] + rarities;
    row := [card.cardType, card.name];
    for j := 0 to |rarities|
      invariant |row| == 2 + j
      invariant row[0] == card.cardType && row[1] == card.name
      invariant forall k :: 2 <= k < |row| ==> row[k] == Cell(card, columnNames[k])
    {
      var rarity := rarities[j];
      assert rarity == columnNames[2 + j];
      var cell := BuildCell(card, rarity);
      row := row + [cell];
    }
  }

  /**
   * The core of `data_to_excel`: the header row and the data rows, one per
   * card in sorted order, each cell under the column it belongs to.
   */
  method DataToMatrix(parsedData: seq<NormalizedCard>, fullReport: bool)
    returns (columnNames: seq<string>, rows: seq<seq<string>>)
    ensures columnNames == ["Type", "Name"] + Columns(SortCards(parsedData), fullReport)
    ensures |rows| == |parsedData|
    ensures forall i :: 0 <= i < |rows| ==> IsRowOf(rows[i], SortCards(parsedData)[i], columnNames)
  {
    var dataSorted := SortCards(parsedData);
    var rarities := DiscoverRarities(dataSorted, fullReport);
    columnNames := ["Type", "Name"] + rarities;
    rows := [];
    for i := 0 to |dataSorted|
      invariant |rows| == i
      invariant forall k :: 0 <= k < i ==> IsRowOf(rows[k], dataSorted[k], columnNames)
    {
      var row := BuildRow(dataSorted[i], rarities);
      rows := rows + [row];
    }
  }
}
