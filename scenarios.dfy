/** Concrete runs of the aggregator and the assembler. */
module Scenarios {

  import opened Text
  import opened Lists
  import opened Sorting
  import opened CardAggregator
  import opened RarityMatrix

  /** A single print makes one bucket, under its rarity, holding its entry. */
  lemma SinglePrint(c: CardSet)
    ensures Group([c]).order == [c.setRarity]
    ensures Bucket(Group([c]), c.setRarity) == [FormatEntry(c)]
  {
    assert [c][..0] == [];
  }

  /** Five "Common" entries show as the first three and the line " (2 weitere)". */
  lemma CommonTruncationExample(a: string, b: string, c: string, d: string, e: string)
    requires '\n' !in a && '\n' !in b && '\n' !in c && '\n' !in d && '\n' !in e
    ensures Split(CellText("Common", [a, b, c, d, e]), '\n') == [a, b, c, " (2 weitere)"]
  {
    var sets := [a, b, c, d, e];
    CommonCellLines(sets);
    assert sets[..CommonLimit] == [a, b, c];
    MoreLineTwo();
  }

  lemma MoreLineTwo()
    ensures MoreLine(2) == " (2 weitere)"
  {
    assert NatToString(2) == "2";
  }

  function TypedCard(cardType: string, name: string): NormalizedCard
  {
    NormalizedCard(name, cardType, Buckets([], map[]))
  }

  /** The keys of the four example types: Spell and Trap are main deck, Xyz and Link extra deck. */
  lemma ExampleKeys(name: string)
    ensures CardKey(TypedCard("Spell", name)) == SortKey(0, "Spell", name)
    ensures CardKey(TypedCard("Trap", name)) == SortKey(0, "Trap", name)
    ensures CardKey(TypedCard("Xyz", name)) == SortKey(1, "Xyz", name)
    ensures CardKey(TypedCard("Link", name)) == SortKey(1, "Link", name)
  {
    assert Lower("Spell") == "spell";
    assert Lower("Trap") == "trap";
    assert Lower("Xyz") == "xyz";
    assert Lower("Link") == "link";
  }

  lemma InsertXyz(name: string)
    ensures InsertBy(TypedCard("Xyz", name), [TypedCard("Trap", name), TypedCard("Link", name)], CardKey, KeyLt) ==
      [TypedCard("Trap", name), TypedCard("Link", name), TypedCard("Xyz", name)]
  {
    var xyz, trap, link := TypedCard("Xyz", name), TypedCard("Trap", name), TypedCard("Link", name);
    ExampleKeys(name);
    assert KeyLt(CardKey(link), CardKey(xyz)) by {
      assert StrLt("Link", "Xyz");
    }
    assert InsertBy(xyz, [link], CardKey, KeyLt) == [link, xyz];
    assert [trap, link][1..] == [link];
  }

  lemma InsertTrap(name: string)
    ensures InsertBy(TypedCard("Trap", name), [TypedCard("Link", name)], CardKey, KeyLt) ==
      [TypedCard("Trap", name), TypedCard("Link", name)]
  {
    ExampleKeys(name);
  }

  lemma InsertSpell(name: string)
    ensures InsertBy(TypedCard("Spell", name), [TypedCard("Trap", name), TypedCard("Link", name), TypedCard("Xyz", name)], CardKey, KeyLt) ==
      [TypedCard("Spell", name), TypedCard("Trap", name), TypedCard("Link", name), TypedCard("Xyz", name)]
  {
    ExampleKeys(name);
    assert !StrLt("Trap", "Spell");
  }

  lemma SortTrapLink(name: string)
    ensures SortCards([TypedCard("Trap", name), TypedCard("Link", name)]) == [TypedCard("Trap", name), TypedCard("Link", name)]
  {
    var trap, link := TypedCard("Trap", name), TypedCard("Link", name);
    assert [trap, link][1..] == [link];
    assert SortCards([link]) == [link];
    InsertTrap(name);
  }

  lemma SortXyzTrapLink(name: string)
    ensures SortCards([TypedCard("Xyz", name), TypedCard("Trap", name), TypedCard("Link", name)]) ==
      [TypedCard("Trap", name), TypedCard("Link", name), TypedCard("Xyz", name)]
  {
    var xyz, trap, link := TypedCard("Xyz", name), TypedCard("Trap", name), TypedCard("Link", name);
    assert [xyz, trap, link][1..] == [trap, link];
    SortTrapLink(name);
    InsertXyz(name);
  }

  /** Spell, Xyz, Trap and Link rows of one name come out as Spell, Trap, then Link, Xyz. */
  lemma RowOrderExample(name: string)
    ensures SortCards([TypedCard("Spell", name), TypedCard("Xyz", name), TypedCard("Trap", name), TypedCard("Link", name)]) ==
      [TypedCard("Spell", name), TypedCard("Trap", name), TypedCard("Link", name), TypedCard("Xyz", name)]
  {
    var spell, xyz, trap, link := TypedCard("Spell", name), TypedCard("Xyz", name), TypedCard("Trap", name), TypedCard("Link", name);
    assert [spell, xyz, trap, link][1..] == [xyz, trap, link];
    SortXyzTrapLink(name);
    InsertSpell(name);
  }

  /**
   * Cards showing the rarities Common and `x`, then Rare and `x`, where `x`
   * (say "Collector's Rare") is not a base column, give the base columns and
   * `x` once, after them.
   */
  lemma ColumnDiscoveryExample(a: NormalizedCard, b: NormalizedCard, x: string)
    requires x !in BaseRarities
    requires a.rarity.order == ["Common", x] && b.rarity.order == ["Rare", x]
    ensures Columns([a, b], true) == BaseRarities + [x]
  {
    assert [a, b][..1] == [a] && [a][..0] == [];
    assert AllRarities([a]) == ["Common", x];
    assert AllRarities([a, b]) == ["Common", x, "Rare", x];
    NovelRarityOnce(x);
  }

  lemma NovelRarityOnce(x: string)
    requires x !in BaseRarities
    ensures AppendMissing(BaseRarities, ["Common", x, "Rare", x]) == BaseRarities + [x]
  {
    NovelRarityFirst(x);
    var r2 := AppendMissing(BaseRarities, ["Common", x]);
    assert r2[1] == "Rare";
    AppendMissingSnoc(BaseRarities, ["Common", x], "Rare");
    assert ["Common", x] + ["Rare"] == ["Common", x, "Rare"];
    var r3 := AppendMissing(BaseRarities, ["Common", x, "Rare"]);
    assert r3 == r2;
    AppendMissingSnoc(BaseRarities, ["Common", x, "Rare"], x);
    assert r3[|BaseRarities|] == x;
    assert ["Common", x, "Rare"] + [x] == ["Common", x, "Rare", x];
  }

  lemma NovelRarityFirst(x: string)
    requires x !in BaseRarities
    ensures AppendMissing(BaseRarities, ["Common", x]) == BaseRarities + [x]
  {
    AppendMissingSnoc(BaseRarities, [], "Common");
    assert [] + ["Common"] == ["Common"];
    assert AppendMissing(BaseRarities, ["Common"]) == BaseRarities;
    AppendMissingSnoc(BaseRarities, ["Common"], x);
    assert ["Common"] + [x] == ["Common", x];
  }
}
