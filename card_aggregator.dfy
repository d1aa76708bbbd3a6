/**
 * The card aggregator: one card-info response of the card API becomes the
 * card's name, its frame type and its prints grouped by rarity, each print
 * written as "<set prefix> <price>$".
 */
module CardAggregator {

  import opened Wrappers
  import opened Text
  import opened Lists

  /** One element of `card_sets`: `set_code`, `set_rarity`, `set_price`. */
  datatype CardSet = CardSet(setCode: string, setRarity: string, setPrice: string)

  /** One element of `data`: `name`, `frameType` and, when the card has prints, `card_sets`. */
  datatype CardInfo = CardInfo(name: string, frameType: string, cardSets: Option<seq<CardSet>>)

  /** A response of the card API; `data` is absent when the card was not found. */
  datatype Response = Response(data: Option<seq<CardInfo>>)

  /**
   * The rarity dict: its keys in insertion order (a Python dict keeps that
   * order, and the matrix discovers its columns in it) and its lists.
   */
  datatype Buckets = Buckets(order: seq<string>, sets: map<string, seq<string>>)

  /** The dict `{name, type, rarity}` that `parse_card_data` fills in. */
  datatype NormalizedCard = NormalizedCard(name: string, cardType: string, rarity: Buckets)

  /** The result of `parse_card_data`: the dict stays empty, is filled, or a KeyError is raised. */
  datatype ParseOutcome = NoCard | Card(card: NormalizedCard) | MissingCardSets

  /** `set_code.split("-")[0]`: the set code up to its first '-'. */
  function SetPrefix(code: string): (p: string)
    ensures p <= code
    ensures '-' !in p
    ensures |p| < |code| ==> code[|p|] == '-'
  {
    Split(code, '-')[0]
  }

  /**
   * One list entry, `set_code.split("-")[0] + " " + set_price + "$"`: the set
   * prefix, a space, the price, and a closing '$'.
   */
  function FormatEntry(c: CardSet): (e: string)
    ensures |e| == |SetPrefix(c.setCode)| + |c.setPrice| + 2
    ensures SetPrefix(c.setCode) + " " <= e
    ensures e[|SetPrefix(c.setCode)| + 1..|e| - 1] == c.setPrice
    ensures e[|e| - 1] == '$'
  {
    SetPrefix(c.setCode) + " " + c.setPrice + "$"
  }

  /**
   * A set code `prefix-rest` with no '-' in `prefix` is listed under its
   * prefix: "LOB-EN001" at `price` gives "LOB <price>$".
   */
  lemma FormatEntryOfCode(prefix: string, rest: string, rarity: string, price: string)
    requires '-' !in prefix
    ensures FormatEntry(CardSet(prefix + "-" + rest, rarity, price)) == prefix + " " + price + "$"
  {
    var code := prefix + "-" + rest;
    assert code[..|prefix|] == prefix;
    IndexOfAt(code, '-', |prefix|);
    assert SetPrefix(code) == Split(code, '-')[0];
  }

  /** `rarities.get(r, [])`: the list of `r`, or the empty list for a rarity without one. */
  function Bucket(b: Buckets, r: string): (l: seq<string>)
    ensures r in b.sets ==> l == b.sets[r]
    ensures r !in b.sets ==> l == []
  {
    if r in b.sets then b.sets[r] else []
  }

  /** The insertion order lists every key once, and no list is empty. */
  ghost predicate WellFormed(b: Buckets)
  {
    && Distinct(b.order)
    && (forall r :: r in b.order <==> r in b.sets)
    && (forall r :: r in b.sets ==> b.sets[r] != [])
  }

  /**
   * `rarities.setdefault(c.set_rarity, []).append(FormatEntry(c))`: the entry
   * goes at the end of its rarity's list, a new rarity goes at the end of the
   * key order, and nothing else changes.
   */
  function AddEntry(b: Buckets, c: CardSet): (r: Buckets)
    ensures Bucket(r, c.setRarity) == Bucket(b, c.setRarity) + [FormatEntry(c)]
    ensures r.order == if c.setRarity in b.sets then b.order else b.order + [c.setRarity]
  {
    var r := c.setRarity;
    if r in b.sets then Buckets(b.order, b.sets[r := b.sets[r] + [FormatEntry(c)]])
    else Buckets(b.order + [r], b.sets[r := [FormatEntry(c)]])
  }

  /** `AddEntry` leaves every other rarity's list alone and adds only its own key. */
  lemma AddEntryOthers(b: Buckets, c: CardSet)
    ensures forall x :: x != c.setRarity ==> Bucket(AddEntry(b, c), x) == Bucket(b, x)
    ensures AddEntry(b, c).sets.Keys == b.sets.Keys + {c.setRarity}
  {
  }

  lemma AddEntryWellFormed(b: Buckets, c: CardSet)
    requires WellFormed(b)
    ensures WellFormed(AddEntry(b, c))
  {
  }

  /** The rarity labels of the prints, in order. */
  function Rarities(cs: seq<CardSet>): (rs: seq<string>)
    ensures |rs| == |cs|
    ensures forall k :: 0 <= k < |cs| ==> rs[k] == cs[k].setRarity
  {
    seq(|cs|, k requires 0 <= k < |cs| => cs[k].setRarity)
  }

  /** The rarity dict built from the prints `cs`, one print after the other. */
  function Group(cs: seq<CardSet>): (b: Buckets)
    ensures WellFormed(b)
    ensures forall r :: r in b.sets <==> r in Rarities(cs)
  {
    if cs == [] then Buckets([], map[])
    else
      var front := cs[..|cs| - 1];
      assert Rarities(cs) == Rarities(front) + [cs[|cs| - 1].setRarity];
      AddEntryWellFormed(Group(front), cs[|cs| - 1]);
      AddEntry(Group(front), cs[|cs| - 1])
  }

  /** Reference definition of one bucket: the entries of the prints of rarity `r`, in print order. */
  function EntriesFor(cs: seq<CardSet>, r: string): seq<string>
  {
    if cs == [] then []
    else EntriesFor(cs[..|cs| - 1], r) + (if cs[|cs| - 1].setRarity == r then [FormatEntry(cs[|cs| - 1])] else [])
  }

  /**
   * Each bucket lists the entries of exactly the prints of its rarity, in
   * their original order and without removing duplicates; a rarity without
   * prints has no bucket.
   */
  lemma {:induction false} GroupBuckets(cs: seq<CardSet>, r: string)
    ensures Bucket(Group(cs), r) == EntriesFor(cs, r)
  {
    if cs != [] {
      GroupBuckets(cs[..|cs| - 1], r);
    }
  }

  /** The keys are in the order their rarity is first met among the prints. */
  lemma {:induction false} GroupOrder(cs: seq<CardSet>)
    ensures Group(cs).order == AppendMissing([], Rarities(cs))
  {
    if cs != [] {
      var front := cs[..|cs| - 1];
      var x := cs[|cs| - 1].setRarity;
      GroupOrder(front);
      assert Rarities(front) == Rarities(cs)[..|cs| - 1];
      assert x in Group(front).sets <==> x in Group(front).order;
    }
  }

  /**
   * The dict for one data record (its `card_sets` present): the record's
   * name and frame type, and its prints grouped by rarity.
   */
  function Normalize(info: CardInfo): (n: NormalizedCard)
    requires info.cardSets.Some?
    ensures n.name == info.name && n.cardType == info.frameType
    ensures WellFormed(n.rarity)
  {
    NormalizedCard(info.name, info.frameType, Group(info.cardSets.value))
  }

  /** Every rarity's list in the normalised card lists exactly that rarity's prints, in order. */
  lemma NormalizeBuckets(info: CardInfo)
    requires info.cardSets.Some?
    ensures forall r :: Bucket(Normalize(info).rarity, r) == EntriesFor(info.cardSets.value, r)
  {
    forall r {
      GroupBuckets(info.cardSets.value, r);
    }
  }

  predicate AllHaveSets(infos: seq<CardInfo>)
  {
    forall k :: 0 <= k < |infos| ==> infos[k].cardSets.Some?
  }

  lemma GroupStep(cs: seq<CardSet>, j: nat)
    requires j < |cs|
    ensures Group(cs[..j + 1]) == AddEntry(Group(cs[..j]), cs[j])
  {
    assert cs[..j + 1][..j] == cs[..j];
  }

  /** `setdefault(r, [])` followed by `append`, on the two halves of the dict, is `AddEntry`. */
  lemma SetDefaultAppend(order: seq<string>, sets: map<string, seq<string>>, c: CardSet)
    ensures var r := c.setRarity;
      var sets' := if r in sets then sets else sets[r := []];
      Buckets(if r in sets then order else order + [r], sets'[r := sets'[r] + [FormatEntry(c)]]) ==
        AddEntry(Buckets(order, sets), c)
  {
    assert [] + [FormatEntry(c)] == [FormatEntry(c)];
  }

  /**
   * The inner loop of `parse_card_data`: every print's entry is appended to
   * the list of its rarity, a new rarity first getting an empty list.
   */
  method GroupPrints(cardSets: seq<CardSet>) returns (rarities: Buckets)
    ensures rarities == Group(cardSets)
  {
    // the dict `rarities`: its key order and its lists
    var order: seq<string> := [];
    var sets: map<string, seq<string>> := map[];
    for j := 0 to |cardSets|
      invariant Buckets(order, sets) == Group(cardSets[..j])
    {
      var c := cardSets[j];
      GroupStep(cardSets, j);
      SetDefaultAppend(order, sets, c);
      if c.setRarity !in sets {
        order := order + [c.setRarity];
        sets := sets[c.setRarity := []];
      }
      sets := sets[c.setRarity := sets[c.setRarity] + [FormatEntry(c)]];
    }
    assert cardSets[..|cardSets|] == cardSets;
    rarities := Buckets(order, sets);
  }

  /**
   * `parse_card_data`: builds the rarity dict of every data record and lets
   * each record overwrite the result, so the last record wins; no `data`
   * leaves the result empty, and a record without `card_sets` raises.
   */
  method ParseCardData(response: Response) returns (outcome: ParseOutcome)
    ensures response.data.None? ==> outcome == NoCard
    ensures response.data.Some? && !AllHaveSets(response.data.value) ==> outcome == MissingCardSets
    ensures response.data.Some? && AllHaveSets(response.data.value) ==>
      outcome == if response.data.value == [] then NoCard
                 else Card(Normalize(response.data.value[|response.data.value| - 1]))
  {
    outcome := NoCard;
    if response.data.Some? {
      var infos := response.data.value;
      for i := 0 to |infos|
        invariant forall k :: 0 <= k < i ==> infos[k].cardSets.Some?
        invariant outcome == if i == 0 then NoCard else Card(Normalize(infos[i - 1]))
      {
        var info := infos[i];
        if info.cardSets.None? {
          return MissingCardSets;
        }
        var rarities := GroupPrints(info.cardSets.value);
        outcome := Card(NormalizedCard(info.name, info.frameType, rarities));
      }
    }
  }
}
