/**
 * The alias index of the report generator: which alternate card id (a GOAT
 * or pre-errata print known only to the local reference databases) stands
 * for which canonical id, and the lookup of canonical ids for the ids the
 * card API did not know.
 */
module AliasIndex {

  import opened Wrappers
  import opened Text
  import opened Lists
  import opened Sorting

  /** One row of the reference-database query: `(datas.id, datas.alias, texts.name)`. */
  datatype Row = Row(altId: int, mainId: int, name: string)

  /** A file of the expansions directory with the rows the query returns for it. */
  datatype Database = Database(fileName: string, rows: seq<Row>)

  /** The print marker of a hit: "GOAT", "Pre-Errata" or "Unknown". */
  datatype Kind = Goat | PreErrata | Unknown

  /** One element of the hit list, the dict `{alt_id, main_id, type, name, db}`. */
  datatype Hit = Hit(altId: int, mainId: int, kind: Kind, name: string, db: string)

  /** A row together with the name of the database it was read from. */
  datatype Entry = Entry(db: string, row: Row)

  const GoatMarker := "(GOAT)"
  const PreErrataMarker := "(Pre-Errata)"
  const DatabaseSuffix := ".cdb"

  /** The marker test on a (stripped) card name: "(GOAT)" is checked first. */
  function Classify(name: string): (k: Kind)
    ensures k == Goat <==> Contains(name, GoatMarker)
    ensures k == PreErrata <==> !Contains(name, GoatMarker) && Contains(name, PreErrataMarker)
    ensures k == Unknown <==> !Contains(name, GoatMarker) && !Contains(name, PreErrataMarker)
  {
    if Contains(name, GoatMarker) then Goat
    else if Contains(name, PreErrataMarker) then PreErrata
    else Unknown
  }

  function HitAltId(h: Hit): int { h.altId }

  function HitName(h: Hit): string { h.name }

  function FileName(d: Database): string { d.fileName }

  predicate IsDatabaseFile(d: Database) { EndsWith(d.fileName, DatabaseSuffix) }

  /**
   * The databases in the order they are read, `sorted(filter(... endswith(".cdb") ...))`:
   * the `.cdb` files of the listing, each as often as listed, in file-name order.
   */
  function Databases(dir: seq<Database>): (ds: seq<Database>)
    ensures SortedBy(ds, FileName, StrLt)
    ensures multiset(ds) == multiset(Filter(dir, IsDatabaseFile))
    ensures forall d :: d in ds <==> d in dir && EndsWith(d.fileName, DatabaseSuffix)
  {
    StrLtStrictTotalOrder();
    var listed := Filter(dir, IsDatabaseFile);
    SortBySorted(listed, FileName, StrLt);
    var sorted := SortBy(listed, FileName, StrLt);
    forall d
      ensures d in sorted <==> d in dir && EndsWith(d.fileName, DatabaseSuffix)
    {
      assert d in sorted <==> d in multiset(sorted);
      assert d in listed <==> d in multiset(listed);
      assert d in listed <==> d in dir && IsDatabaseFile(d);
    }
    sorted
  }

  /** The rows of one database, each paired with the database's name. */
  function Tag(db: Database): (es: seq<Entry>)
    ensures |es| == |db.rows|
    ensures forall k :: 0 <= k < |es| ==> es[k] == Entry(db.fileName, db.rows[k])
  {
    seq(|db.rows|, k requires 0 <= k < |db.rows| => Entry(db.fileName, db.rows[k]))
  }

  /** The rows of several databases, database after database. */
  function Entries(dbs: seq<Database>): seq<Entry>
  {
    if dbs == [] then [] else Entries(dbs[..|dbs| - 1]) + Tag(dbs[|dbs| - 1])
  }

  /**
   * Every row the hit search meets, in the order it meets them, each tagged
   * with its database's name (`ScanOrderMembers` says which rows these are,
   * `EntriesAppend` gives the database-after-database order).
   */
  function ScanOrder(dir: seq<Database>): seq<Entry>
  {
    Entries(Databases(dir))
  }

  /** The scan meets exactly the rows of the `.cdb` databases, each tagged with its own file. */
  lemma ScanOrderMembers(dir: seq<Database>)
    ensures forall e :: e in ScanOrder(dir) <==> exists d :: d in Databases(dir) && d.fileName == e.db && e.row in d.rows
  {
    EntriesMembers(Databases(dir));
  }

  lemma {:induction false} EntriesMembers(dbs: seq<Database>)
    ensures forall e :: e in Entries(dbs) <==> exists d :: d in dbs && d.fileName == e.db && e.row in d.rows
  {
    if dbs != [] {
      var front, last := dbs[..|dbs| - 1], dbs[|dbs| - 1];
      EntriesMembers(front);
      assert dbs == front + [last];
      forall e
        ensures e in Entries(dbs) <==> exists d :: d in dbs && d.fileName == e.db && e.row in d.rows
      {
        assert e in Tag(last) <==> last.fileName == e.db && e.row in last.rows by {
          if last.fileName == e.db && e.row in last.rows {
            var k :| 0 <= k < |last.rows| && last.rows[k] == e.row;
            assert Tag(last)[k] == e;
          }
        }
        if exists d :: d in dbs && d.fileName == e.db && e.row in d.rows {
          var d :| d in dbs && d.fileName == e.db && e.row in d.rows;
          assert d in front || d == last;
        }
      }
    }
  }

  /** The rows of a list of databases are those of its first part followed by those of the rest. */
  lemma {:induction false} EntriesAppend(a: seq<Database>, b: seq<Database>)
    ensures Entries(a + b) == Entries(a) + Entries(b)
  {
    if b == [] {
      assert a + b == a;
    } else {
      var front, last := b[..|b| - 1], b[|b| - 1];
      assert a + b == (a + front) + [last];
      assert (a + b)[..|a + b| - 1] == a + front;
      assert Entries(a + b) == Entries(a + front) + Tag(last);
      EntriesAppend(a, front);
      assert Entries(b) == Entries(front) + Tag(last);
    }
  }

  /**
   * The hit recorded for a row: its ids and database, its name stripped of
   * the white space at either end (`Strip`), and the marker class of that
   * name (`Classify`).
   */
  function MakeHit(e: Entry): (h: Hit)
    ensures h.altId == e.row.altId && h.mainId == e.row.mainId && h.db == e.db
    ensures h.name == Strip(e.row.name) && h.kind == Classify(h.name)
  {
    var name := Strip(e.row.name);
    Hit(e.row.altId, e.row.mainId, Classify(name), name, e.db)
  }

  function AltIds(hits: seq<Hit>): set<int>
  {
    set h | h in hits :: h.altId
  }

  function EntryAltIds(es: seq<Entry>): set<int>
  {
    set e | e in es :: e.row.altId
  }

  /** The hits of the scan before sorting: each alt id's first row, in scan order. */
  function KeepFirst(es: seq<Entry>): (hits: seq<Hit>)
    ensures AltIds(hits) == EntryAltIds(es)
  {
    if es == [] then []
    else
      var front, e := es[..|es| - 1], es[|es| - 1];
      EntryAltIdsSnoc(es);
      var prev := KeepFirst(front);
      AltIdsSnoc(prev, MakeHit(e));
      KeepFirstSnoc(prev, e)
  }

  lemma AltIdsSnoc(hits: seq<Hit>, h: Hit)
    ensures AltIds(hits + [h]) == AltIds(hits) + {h.altId}
  {
    assert forall x :: x in hits + [h] <==> x in hits || x == h;
  }

  lemma EntryAltIdsSnoc(es: seq<Entry>)
    requires es != []
    ensures EntryAltIds(es) == EntryAltIds(es[..|es| - 1]) + {es[|es| - 1].row.altId}
  {
    assert es == es[..|es| - 1] + [es[|es| - 1]];
    assert forall x :: x in es <==> x in es[..|es| - 1] || x == es[|es| - 1];
  }

  /** The index of the first row with alt id `a`. */
  function FirstIndex(es: seq<Entry>, a: int): (k: nat)
    requires a in EntryAltIds(es)
    ensures k < |es| && es[k].row.altId == a
    ensures forall m :: 0 <= m < k ==> es[m].row.altId != a
  {
    if es[0].row.altId == a then 0
    else
      var e :| e in es && e.row.altId == a;
      assert e in es[1..];
      1 + FirstIndex(es[1..], a)
  }

  lemma FirstIndexAppend(front: seq<Entry>, e: Entry, a: int)
    requires a in EntryAltIds(front)
    ensures FirstIndex(front + [e], a) == FirstIndex(front, a)
  {
    var i, j := FirstIndex(front + [e], a), FirstIndex(front, a);
    assert (front + [e])[j] == front[j];
  }

  lemma FirstIndexAtEnd(front: seq<Entry>, e: Entry)
    requires e.row.altId !in EntryAltIds(front)
    ensures FirstIndex(front + [e], e.row.altId) == |front|
  {
    var i := FirstIndex(front + [e], e.row.altId);
  }

  /** At most one hit per alt id. */
  lemma {:induction false} KeepFirstDistinct(es: seq<Entry>)
    ensures DistinctBy(KeepFirst(es), HitAltId)
  {
    if es != [] {
      var front, e := es[..|es| - 1], es[|es| - 1];
      KeepFirstDistinct(front);
      KeepFirstSnocDistinct(KeepFirst(front), e);
    }
  }

  lemma KeepFirstSnocDistinct(prev: seq<Hit>, e: Entry)
    requires DistinctBy(prev, HitAltId)
    ensures DistinctBy(KeepFirstSnoc(prev, e), HitAltId)
  {
    if e.row.altId !in AltIds(prev) {
      var r := prev + [MakeHit(e)];
      forall i | 0 <= i < |prev|
        ensures HitAltId(r[i]) != HitAltId(r[|prev|])
      {
        assert prev[i] in prev;
      }
    }
  }

  /** First seen wins: the hit kept for an alt id is made from its first row. */
  lemma {:induction false} KeepFirstIsFirst(es: seq<Entry>)
    ensures forall h :: h in KeepFirst(es) ==>
      h.altId in EntryAltIds(es) && h == MakeHit(es[FirstIndex(es, h.altId)])
  {
    if es != [] {
      var front, e := es[..|es| - 1], es[|es| - 1];
      assert es == front + [e];
      KeepFirstIsFirst(front);
      forall h | h in KeepFirst(es)
        ensures h.altId in EntryAltIds(es) && h == MakeHit(es[FirstIndex(es, h.altId)])
      {
        KeepFirstIsFirstStep(front, e, h);
      }
    }
  }

  lemma KeepFirstIsFirstStep(front: seq<Entry>, e: Entry, h: Hit)
    requires forall h :: h in KeepFirst(front) ==>
      h.altId in EntryAltIds(front) && h == MakeHit(front[FirstIndex(front, h.altId)])
    requires h in KeepFirst(front + [e])
    ensures h.altId in EntryAltIds(front + [e]) && h == MakeHit((front + [e])[FirstIndex(front + [e], h.altId)])
  {
    var prev := KeepFirst(front);
    KeepFirstAppend(front, e);
    if h in prev {
      FirstIndexAppend(front, e, h.altId);
    } else {
      assert h == MakeHit(e) && e.row.altId !in EntryAltIds(front);
      FirstIndexAtEnd(front, e);
    }
  }

  /** The hits are in the order in which their alternate ids first occur in `es`. */
  predicate InFirstSeenOrder(es: seq<Entry>, hits: seq<Hit>)
  {
    forall i, j :: 0 <= i < j < |hits| ==>
      && hits[i].altId in EntryAltIds(es) && hits[j].altId in EntryAltIds(es)
      && FirstIndex(es, hits[i].altId) < FirstIndex(es, hits[j].altId)
  }

  /** The kept hits are in the order in which their alternate ids first occur in the scan. */
  lemma {:induction false} KeepFirstOrdered(es: seq<Entry>)
    ensures InFirstSeenOrder(es, KeepFirst(es))
  {
    if es != [] {
      var front, e := es[..|es| - 1], es[|es| - 1];
      assert es == front + [e];
      KeepFirstOrdered(front);
      KeepFirstAppend(front, e);
      KeepFirstOrderedStep(front, KeepFirst(front), e);
    }
  }

  lemma KeepFirstOrderedStep(front: seq<Entry>, prev: seq<Hit>, e: Entry)
    requires AltIds(prev) == EntryAltIds(front) && InFirstSeenOrder(front, prev)
    ensures InFirstSeenOrder(front + [e], KeepFirstSnoc(prev, e))
  {
    var es := front + [e];
    forall h | h in prev
      ensures h.altId in EntryAltIds(es) && FirstIndex(es, h.altId) == FirstIndex(front, h.altId)
    {
      FirstIndexAppend(front, e, h.altId);
    }
    if e.row.altId !in AltIds(prev) {
      var kept := prev + [MakeHit(e)];
      FirstIndexAtEnd(front, e);
      forall i, j | 0 <= i < j < |kept|
        ensures && kept[i].altId in EntryAltIds(es) && kept[j].altId in EntryAltIds(es)
                && FirstIndex(es, kept[i].altId) < FirstIndex(es, kept[j].altId)
      {
        assert kept[i] == prev[i] && prev[i] in prev;
        if j < |prev| {
          assert kept[j] == prev[j] && prev[j] in prev;
        }
      }
    }
  }

  /** The hit list `find_hits` returns: the hits of the scan, rearranged into name order. */
  function Hits(dir: seq<Database>): (hs: seq<Hit>)
    ensures multiset(hs) == multiset(KeepFirst(ScanOrder(dir)))
    ensures SortedBy(hs, HitName, StrLt)
  {
    StrLtStrictTotalOrder();
    SortBySorted(KeepFirst(ScanOrder(dir)), HitName, StrLt);
    SortBy(KeepFirst(ScanOrder(dir)), HitName, StrLt)
  }

  /** Sorting the hits keeps exactly the hits of the scan. */
  lemma HitsMembers(dir: seq<Database>)
    ensures forall h :: h in Hits(dir) <==> h in KeepFirst(ScanOrder(dir))
  {
    var kept := KeepFirst(ScanOrder(dir));
    forall h
      ensures h in Hits(dir) <==> h in kept
    {
      assert h in Hits(dir) <==> h in multiset(Hits(dir));
      assert h in kept <==> h in multiset(kept);
    }
  }

  /** `find_hits` returns at most one hit per alt id. */
  lemma HitsDistinct(dir: seq<Database>)
    ensures DistinctBy(Hits(dir), HitAltId)
  {
    KeepFirstDistinct(ScanOrder(dir));
    SortByKeepsDistinct(KeepFirst(ScanOrder(dir)), HitName, StrLt, HitAltId);
  }

  /** Hits with equal names stay in the order the scan found them. */
  lemma HitsStable(dir: seq<Database>, n: string)
    ensures KeyFilter(Hits(dir), HitName, n) == KeyFilter(KeepFirst(ScanOrder(dir)), HitName, n)
  {
    StrLtStrictTotalOrder();
    SortByStable(KeepFirst(ScanOrder(dir)), HitName, StrLt, n);
  }

  /**
   * First seen wins: every alt id met in the scan (databases by sorted file
   * name, rows in query order) has a hit, and that hit is made from the first
   * row with that id.
   */
  lemma HitsFirstSeen(dir: seq<Database>)
    ensures AltIds(Hits(dir)) == EntryAltIds(ScanOrder(dir))
    ensures forall h :: h in Hits(dir) ==>
      h.altId in EntryAltIds(ScanOrder(dir)) && h == MakeHit(ScanOrder(dir)[FirstIndex(ScanOrder(dir), h.altId)])
  {
    HitsMembers(dir);
    KeepFirstIsFirst(ScanOrder(dir));
    assert AltIds(Hits(dir)) == AltIds(KeepFirst(ScanOrder(dir)));
  }

  /**
   * `find_hits`: reads the databases in sorted order and their rows in order,
   * records a hit for each alt id the first time it is met, and sorts the
   * hits by name.
   */
  method FindHits(dir: seq<Database>) returns (hits: seq<Hit>)
    ensures hits == Hits(dir)
    ensures DistinctBy(hits, HitAltId)
    ensures SortedBy(hits, HitName, StrLt)
    ensures AltIds(hits) == EntryAltIds(ScanOrder(dir))
    ensures forall h :: h in hits ==> h == MakeHit(ScanOrder(dir)[FirstIndex(ScanOrder(dir), h.altId)])
  {
    var databases := Databases(dir);
    var kept: seq<Hit> := [];
    var encountered: set<int> := {};
    for i := 0 to |databases|
      invariant kept == KeepFirst(Entries(databases[..i]))
      invariant encountered == AltIds(kept)
    {
      kept, encountered := ScanRows(databases[i], Entries(databases[..i]), kept, encountered);
      EntriesStep(databases, i);
    }
    assert databases[..|databases|] == databases;
    hits := SortBy(kept, HitName, StrLt);
    HitsDistinct(dir);
    HitsFirstSeen(dir);
  }

  /**
   * The row loop of `find_hits` for one database, after the rows `before`:
   * a row whose alt id is already encountered is skipped, any other row adds
   * its hit and its alt id.
   */
  method ScanRows(db: Database, ghost before: seq<Entry>, kept0: seq<Hit>, encountered0: set<int>)
    returns (kept: seq<Hit>, encountered: set<int>)
    requires kept0 == KeepFirst(before) && encountered0 == AltIds(kept0)
    ensures kept == KeepFirst(before + Tag(db)) && encountered == AltIds(kept)
  {
    kept, encountered := kept0, encountered0;
    assert before + Tag(db)[..0] == before;
    for j := 0 to |db.rows|
      invariant kept == KeepFirst(before + Tag(db)[..j])
      invariant encountered == AltIds(kept)
    {
      var row := db.rows[j];
      var name := Strip(row.name);
      ScanStep(before, db, j);
      if row.altId in encountered {
        continue;
      }
      var kind := Classify(name);
      var hit := Hit(row.altId, row.mainId, kind, name, db.fileName);
      assert hit == MakeHit(Entry(db.fileName, row));
      AltIdsSnoc(kept, hit);
      kept := kept + [hit];
      encountered := encountered + {row.altId};
    }
    assert Tag(db)[..|db.rows|] == Tag(db);
  }

  /** Reading row `j` of `db` after the rows `es` extends the hits of `es` by at most its own hit. */
  lemma ScanStep(es: seq<Entry>, db: Database, j: nat)
    requires j < |db.rows|
    ensures KeepFirst(es + Tag(db)[..j + 1]) == KeepFirstSnoc(KeepFirst(es + Tag(db)[..j]), Entry(db.fileName, db.rows[j]))
  {
    var next := es + Tag(db)[..j + 1];
    assert next == (es + Tag(db)[..j]) + [Entry(db.fileName, db.rows[j])];
    KeepFirstAppend(es + Tag(db)[..j], Entry(db.fileName, db.rows[j]));
  }

  /**
   * One step of the scan: the hits so far stay, the row's alt id becomes
   * known, and the row's own hit is appended exactly when its alt id is new.
   */
  function KeepFirstSnoc(prev: seq<Hit>, e: Entry): (hits: seq<Hit>)
    ensures prev <= hits && |hits| <= |prev| + 1
    ensures AltIds(hits) == AltIds(prev) + {e.row.altId}
    ensures hits == prev <==> e.row.altId in AltIds(prev)
    ensures |hits| > |prev| ==> hits[|prev|] == MakeHit(e)
  {
    AltIdsSnoc(prev, MakeHit(e));
    if e.row.altId in AltIds(prev) then prev else prev + [MakeHit(e)]
  }

  lemma KeepFirstAppend(es: seq<Entry>, e: Entry)
    ensures KeepFirst(es + [e]) == KeepFirstSnoc(KeepFirst(es), e)
  {
    assert (es + [e])[..|es|] == es;
  }

  lemma EntriesStep(dbs: seq<Database>, i: nat)
    requires i < |dbs|
    ensures Entries(dbs[..i + 1]) == Entries(dbs[..i]) + Tag(dbs[i])
  {
    assert dbs[..i + 1][..i] == dbs[..i];
  }

  /**
   * The filter of `find_main`: the main id of every hit whose alt id was
   * asked for, in hit order.
   */
  function SelectMain(hits: seq<Hit>, ids: set<int>): (r: seq<int>)
    ensures |r| <= |hits|
  {
    if hits == [] then []
    else (if hits[0].altId in ids then [hits[0].mainId] else []) + SelectMain(hits[1..], ids)
  }

  /** A main id is selected exactly when some hit with an asked-for alt id carries it. */
  lemma {:induction false} SelectMainMembers(hits: seq<Hit>, ids: set<int>, m: int)
    ensures m in SelectMain(hits, ids) <==> exists h :: h in hits && h.altId in ids && h.mainId == m
  {
    if hits != [] {
      SelectMainMembers(hits[1..], ids, m);
      assert forall h :: h in hits <==> h == hits[0] || h in hits[1..];
    }
  }

  /** The filter works hit by hit: it distributes over concatenation. */
  lemma {:induction false} SelectMainAppend(a: seq<Hit>, b: seq<Hit>, ids: set<int>)
    ensures SelectMain(a + b, ids) == SelectMain(a, ids) + SelectMain(b, ids)
  {
    if a != [] {
      var head := if a[0].altId in ids then [a[0].mainId] else [];
      assert (a + b)[0] == a[0];
      assert (a + b)[1..] == a[1..] + b;
      SelectMainAppend(a[1..], b, ids);
      calc {
        SelectMain(a + b, ids);
        head + SelectMain(a[1..] + b, ids);
        head + (SelectMain(a[1..], ids) + SelectMain(b, ids));
        (head + SelectMain(a[1..], ids)) + SelectMain(b, ids);
      }
    } else {
      assert a + b == b;
    }
  }

  /** Asked-for ids that no hit carries make no difference. */
  lemma {:induction false} SelectMainIgnoresUnmatched(hits: seq<Hit>, ids: set<int>, other: set<int>)
    requires ids * AltIds(hits) == other * AltIds(hits)
    ensures SelectMain(hits, ids) == SelectMain(hits, other)
  {
    if hits != [] {
      var rest := hits[1..];
      assert hits[0].altId in AltIds(hits);
      var all := AltIds(hits);
      forall x | x in all
        ensures x in ids <==> x in other
      {
        assert x in ids <==> x in ids * all;
        assert x in other <==> x in other * all;
      }
      forall x | x in AltIds(rest)
        ensures x in all
      {
        var h :| h in rest && h.altId == x;
        assert h in hits;
      }
      assert ids * AltIds(rest) == other * AltIds(rest);
      SelectMainIgnoresUnmatched(rest, ids, other);
    }
  }

  lemma AltIdsCons(hits: seq<Hit>)
    requires hits != []
    ensures AltIds(hits) == {hits[0].altId} + AltIds(hits[1..])
  {
    assert forall h :: h in hits <==> h == hits[0] || h in hits[1..];
  }

  lemma DistinctByCons(hits: seq<Hit>)
    requires hits != [] && DistinctBy(hits, HitAltId)
    ensures DistinctBy(hits[1..], HitAltId)
    ensures hits[0].altId !in AltIds(hits[1..])
  {
    var rest := hits[1..];
    forall h | h in rest
      ensures h.altId != hits[0].altId
    {
      var k :| 0 <= k < |rest| && rest[k] == h;
      assert HitAltId(hits[0]) != HitAltId(hits[k + 1]);
    }
  }

  /** With one hit per alt id, every asked-for id that a hit carries yields exactly one main id. */
  lemma {:induction false} SelectMainCount(hits: seq<Hit>, ids: set<int>)
    requires DistinctBy(hits, HitAltId)
    ensures |SelectMain(hits, ids)| == |ids * AltIds(hits)|
  {
    if hits != [] {
      var a, rest := hits[0].altId, hits[1..];
      DistinctByCons(hits);
      SelectMainCount(rest, ids);
      AltIdsCons(hits);
      assert |SelectMain(hits, ids)| == (if a in ids then 1 else 0) + |SelectMain(rest, ids)|;
      CountStep(ids, a, AltIds(rest));
    }
  }

  lemma CountStep(ids: set<int>, a: int, rest: set<int>)
    requires a !in rest
    ensures |ids * ({a} + rest)| == (if a in ids then 1 else 0) + |ids * rest|
  {
    if a in ids {
      assert ids * ({a} + rest) == {a} + ids * rest;
    } else {
      assert ids * ({a} + rest) == ids * rest;
    }
  }

  /** The hits the filter of `find_main` selects, in hit order. */
  function Selected(hits: seq<Hit>, ids: set<int>): (r: seq<Hit>)
    ensures |r| == |SelectMain(hits, ids)|
    ensures forall k :: 0 <= k < |r| ==> r[k].mainId == SelectMain(hits, ids)[k]
    ensures forall h :: h in r <==> h in hits && h.altId in ids
  {
    if hits == [] then []
    else
      var head := if hits[0].altId in ids then [hits[0]] else [];
      var rest := Selected(hits[1..], ids);
      assert forall h :: h in hits <==> h == hits[0] || h in hits[1..];
      head + rest
  }

  /** The selection works hit by hit, so the kept hits are in hit order. */
  lemma {:induction false} SelectedAppend(a: seq<Hit>, b: seq<Hit>, ids: set<int>)
    ensures Selected(a + b, ids) == Selected(a, ids) + Selected(b, ids)
  {
    if a != [] {
      var head := if a[0].altId in ids then [a[0]] else [];
      assert (a + b)[0] == a[0];
      assert (a + b)[1..] == a[1..] + b;
      SelectedAppend(a[1..], b, ids);
      assert Selected(a + b, ids) == head + (Selected(a[1..], ids) + Selected(b, ids));
    } else {
      assert a + b == b;
    }
  }

  /** Selecting hits with distinct alternate ids yields hits with distinct alternate ids. */
  lemma {:induction false} SelectedDistinct(hits: seq<Hit>, ids: set<int>)
    requires DistinctBy(hits, HitAltId)
    ensures DistinctBy(Selected(hits, ids), HitAltId)
  {
    if hits != [] {
      DistinctByCons(hits);
      SelectedDistinct(hits[1..], ids);
      var r, rest := Selected(hits, ids), Selected(hits[1..], ids);
      if hits[0].altId in ids {
        assert r == [hits[0]] + rest;
        forall j | 0 < j < |r|
          ensures HitAltId(r[0]) != HitAltId(r[j])
        {
          assert r[j] == rest[j - 1] && rest[j - 1] in rest;
          assert r[j].altId in AltIds(hits[1..]);
        }
      }
    }
  }

  /** The canonical id for `a`: the main id of the first row with alt id `a` in scan order. */
  function Resolve(dir: seq<Database>, a: int): Option<int>
  {
    var es := ScanOrder(dir);
    if a in EntryAltIds(es) then Some(es[FirstIndex(es, a)].row.mainId) else None
  }

  /**
   * `find_main` returns, for each asked-for id that some database knows, the
   * main id of its first row in scan order, and nothing for any other id.
   */
  lemma FindMainResolves(dir: seq<Database>, ids: set<int>)
    ensures forall m :: m in SelectMain(Hits(dir), ids) <==> exists a :: a in ids && Resolve(dir, a) == Some(m)
    ensures |SelectMain(Hits(dir), ids)| == |ids * EntryAltIds(ScanOrder(dir))|
  {
    var es := ScanOrder(dir);
    var hits := Hits(dir);
    HitsDistinct(dir);
    HitsFirstSeen(dir);
    forall m
      ensures m in SelectMain(hits, ids) <==> exists a :: a in ids && Resolve(dir, a) == Some(m)
    {
      SelectMainMembers(hits, ids, m);
      if m in SelectMain(hits, ids) {
        var h :| h in hits && h.altId in ids && h.mainId == m;
        assert Resolve(dir, h.altId) == Some(m);
      }
      if exists a :: a in ids && Resolve(dir, a) == Some(m) {
        var a :| a in ids && Resolve(dir, a) == Some(m);
        assert a in AltIds(hits);
        var h :| h in hits && h.altId == a;
        assert h.mainId == m;
      }
    }
    SelectMainCount(hits, ids);
  }

  /**
   * Position by position: the `k`-th main id `find_main` returns is the
   * canonical id of the `k`-th selected hit's alternate id; those alternate
   * ids are distinct and are exactly the requested ids some database knows.
   * So each known requested id contributes its own canonical id, once, even
   * when several of them share one canonical id.
   */
  lemma FindMainSources(dir: seq<Database>, ids: set<int>)
    ensures |Selected(Hits(dir), ids)| == |SelectMain(Hits(dir), ids)|
    ensures DistinctBy(Selected(Hits(dir), ids), HitAltId)
    ensures AltIds(Selected(Hits(dir), ids)) == ids * EntryAltIds(ScanOrder(dir))
    ensures forall k :: 0 <= k < |Selected(Hits(dir), ids)| ==>
      Resolve(dir, Selected(Hits(dir), ids)[k].altId) == Some(SelectMain(Hits(dir), ids)[k])
  {
    var hits := Hits(dir);
    var src := Selected(hits, ids);
    HitsDistinct(dir);
    HitsFirstSeen(dir);
    SelectedDistinct(hits, ids);
    forall a
      ensures a in AltIds(src) <==> a in ids * EntryAltIds(ScanOrder(dir))
    {
      if a in AltIds(src) {
        var h :| h in src && h.altId == a;
        assert h in hits;
      }
      if a in ids * EntryAltIds(ScanOrder(dir)) {
        assert a in AltIds(hits);
        var h :| h in hits && h.altId == a;
        assert h in src;
      }
    }
    forall k | 0 <= k < |src|
      ensures Resolve(dir, src[k].altId) == Some(SelectMain(hits, ids)[k])
    {
      assert src[k] in src;
    }
  }

  /**
   * Asked about one alt id, `find_main` yields the main id of its first row
   * (the lexicographically first database wins), or nothing.
   */
  lemma ResolveOne(dir: seq<Database>, a: int)
    ensures SelectMain(Hits(dir), {a}) == if Resolve(dir, a).Some? then [Resolve(dir, a).value] else []
  {
    if a in EntryAltIds(ScanOrder(dir)) {
      ResolveKnown(dir, a);
    } else {
      ResolveUnknown(dir, a);
    }
  }

  lemma ResolveKnown(dir: seq<Database>, a: int)
    requires a in EntryAltIds(ScanOrder(dir))
    ensures SelectMain(Hits(dir), {a}) == [Resolve(dir, a).value]
  {
    FindMainResolves(dir, {a});
    var r := SelectMain(Hits(dir), {a});
    assert |r| == 1 by {
      assert {a} * EntryAltIds(ScanOrder(dir)) == {a};
    }
    var m := r[0];
    assert m in r;
    var b :| b in {a} && Resolve(dir, b) == Some(m);
    assert r == [m];
  }

  lemma ResolveUnknown(dir: seq<Database>, a: int)
    requires a !in EntryAltIds(ScanOrder(dir))
    ensures SelectMain(Hits(dir), {a}) == []
  {
    FindMainResolves(dir, {a});
    assert {a} * EntryAltIds(ScanOrder(dir)) == {};
  }

  /**
   * `find_main`: the set of asked-for alternate ids, the hit list, and the
   * main id of every hit whose alt id was asked for.
   */
  method FindMain(altIdList: seq<int>, dir: seq<Database>) returns (mainIds: seq<int>)
    ensures mainIds == SelectMain(Hits(dir), set a | a in altIdList)
    ensures forall m :: m in mainIds <==> exists a :: a in altIdList && Resolve(dir, a) == Some(m)
    ensures |mainIds| == |(set a | a in altIdList) * EntryAltIds(ScanOrder(dir))|
    ensures forall k :: 0 <= k < |mainIds| ==>
      Resolve(dir, Selected(Hits(dir), set a | a in altIdList)[k].altId) == Some(mainIds[k])
  {
    var ids := set a | a in altIdList;
    var hits := FindHits(dir);
    mainIds := SelectMain(hits, ids);
    FindMainResolves(dir, ids);
    FindMainSources(dir, ids);
  }
}
