/** What a create followed by a read gives back. */
module RoundTrip {
  import opened Wrappers
  import opened Fractions
  import opened Validator
  import opened Store
  import opened PrizeWriter
  import opened PrizeReader

  /** Primary keys of the person and organization tables are unique. */
  predicate UniqueRowKeys(db: Db)
  {
    && (forall i, j :: 0 <= i < j < |db.persons| ==> db.persons[i].id != db.persons[j].id)
    && (forall i, j :: 0 <= i < j < |db.organizations| ==> db.organizations[i].id != db.organizations[j].id)
  }

  /**
    A laureate as read back shows the laureate as requested: same description
    and share, the person its person identifier names, with that identifier and
    the person's name, and the organization its organization identifier names,
    of which only the name survives the person shape.
   */
  predicate ShowsLaureate(db: Db, v: LaureateView, l: LaureateCreate)
  {
    && v.description == l.description
    && v.nominator == l.fraction.nominator
    && v.denominator == l.fraction.denominator
    && (match l.laureateType.personIdentifier
        case None => v.person.None?
        case Some(id) => exists k :: 0 <= k < |db.persons| && db.persons[k].personIdentifier == id
                                     && v.person == Some(PersonView(Some(id), db.persons[k].name)))
    && (match l.laureateType.organizationIdentifier
        case None => v.organization.None?
        case Some(id) => exists k :: 0 <= k < |db.organizations| && db.organizations[k].organizationIdentifier == id
                                     && v.organization == Some(PersonView(None, db.organizations[k].name)))
  }

  /** A written laureate row reads back as the laureate it was written for. */
  lemma RecordedLaureateReadsBack(db: Db, prizeId: int, l: LaureateCreate, row: LaureateRow)
    requires UniqueRowKeys(db)
    requires RecordsLaureate(db, prizeId, l, row)
    ensures ShowsLaureate(db, LaureateViewOf(db, row), l)
  {
    var v := LaureateViewOf(db, row);
    if l.laureateType.personIdentifier.Some? {
      var k :| 0 <= k < |db.persons| && db.persons[k].personIdentifier == l.laureateType.personIdentifier.value
               && db.persons[k].id == row.personId.value;
      var m :| 0 <= m < |db.persons| && db.persons[m].id == row.personId.value
               && v.person.value == PersonView(Some(db.persons[m].personIdentifier), db.persons[m].name);
      assert m == k;
    }
    if l.laureateType.organizationIdentifier.Some? {
      var k :| 0 <= k < |db.organizations|
               && db.organizations[k].organizationIdentifier == l.laureateType.organizationIdentifier.value
               && db.organizations[k].id == row.organizationId.value;
      var m :| 0 <= m < |db.organizations| && db.organizations[m].id == row.organizationId.value
               && v.organization.value == PersonView(None, db.organizations[m].name);
      assert m == k;
    }
  }

  /** After a successful create, the new prize's laureate rows are exactly the rows written for the request, in request order. */
  lemma CreatedLaureateRows(db: Db, p: PrizeCreate, unique: UniqueConstraint)
    requires FreshKeys(db)
    requires CreateNobelPrize(db, p, unique).result.Success?
    ensures var after := CreateNobelPrize(db, p, unique).db;
            var rows := RowsOf(after.laureates, db.nextPrizeId);
            && |rows| == |p.laureates|
            && forall k :: 0 <= k < |p.laureates| ==> RecordsLaureate(db, db.nextPrizeId, p.laureates[k], rows[k])
  {
    var after := CreateNobelPrize(db, p, unique).db;
    var id := db.nextPrizeId;
    var added := after.laureates[|db.laureates|..];
    assert after.laureates == db.laureates + added;
    forall k | 0 <= k < |added| ensures RecordsLaureate(db, id, p.laureates[k], added[k]) {
      assert added[k] == after.laureates[|db.laureates| + k];
    }
    RowsOfAppend(db.laureates, added, id);
    RowsOfNoneMatching(db.laureates, id);
    RowsOfAllMatching(added, id);
  }

  /**
    After a successful create, the query by the prize's year and the stored
    category's code returns the new prize with exactly its requested laureates,
    in request order. The code shown is that of category key 1, the key every
    insert writes, not necessarily the category the request named.
   */
  lemma CreateThenRead(db: Db, p: PrizeCreate, unique: UniqueConstraint, code: string)
    requires FreshKeys(db)
    requires UniqueRowKeys(db)
    requires CodeOfCategory(db.categories, InsertedCategoryId) == Some(code)
    requires CreateNobelPrize(db, p, unique).result.Success?
    ensures var views := GetNobelPrizes(CreateNobelPrize(db, p, unique).db, Some(p.year), Some(code));
            exists i :: 0 <= i < |views|
                        && views[i].category == code && views[i].year == p.year && views[i].url == p.url
                        && |views[i].laureates| == |p.laureates|
                        && forall k :: 0 <= k < |p.laureates| ==> ShowsLaureate(db, views[i].laureates[k], p.laureates[k])
  {
    var after := CreateNobelPrize(db, p, unique).db;
    var id := db.nextPrizeId;
    var row := PrizeRow(id, InsertedCategoryId, p.year, p.url);
    assert after.prizes[|db.prizes|] == row;
    assert after.categories == db.categories;
    QueryIsComplete(after, Some(p.year), Some(code), row, code);
    var views := GetNobelPrizes(after, Some(p.year), Some(code));
    var i :| 0 <= i < |views| && Shows(after, views[i], row);
    CreatedLaureateRows(db, p, unique);
    var rows := RowsOf(after.laureates, id);
    assert views[i].laureates == LaureateViews(after, rows);
    forall k | 0 <= k < |p.laureates| ensures ShowsLaureate(db, views[i].laureates[k], p.laureates[k]) {
      RecordedLaureateReadsBack(db, id, p.laureates[k], rows[k]);
    }
  }

  /**
    Under the one-prize-per-(category key, year) constraint, a store with no
    prize clashing with the row about to be inserted has no prize that the
    query by the row's year and by a non-blank code of the row's category key
    selects.
   */
  lemma {:induction false} NothingSelectedWithoutClash(prizes: seq<PrizeRow>, categories: seq<CategoryRow>,
                                                       row: PrizeRow, code: string)
    requires !IsBlank(code)
    requires forall i :: 0 <= i < |categories| && categories[i].code == code ==> categories[i].id == row.categoryId
    requires !Clashes(NaturalKey, prizes, row)
    ensures Select(prizes, categories, Some(row.year), Some(code)) == []
  {
    if |prizes| > 0 {
      assert !Clashes(NaturalKey, prizes[1..], row) by {
        forall i | 0 <= i < |prizes| - 1 ensures !NaturalKey(prizes[1..][i], row) {
          assert prizes[1..][i] == prizes[i + 1];
        }
      }
      NothingSelectedWithoutClash(prizes[1..], categories, row, code);
    }
  }

  /**
    Under the one-prize-per-(category key, year) constraint, adding a row that
    clashes with no stored prize leaves exactly one prize for the query by its
    year and by the only, non-blank code of its category key.
   */
  lemma SelectAfterCreateIsSingle(prizes: seq<PrizeRow>, categories: seq<CategoryRow>, row: PrizeRow, code: string)
    requires !IsBlank(code)
    requires CodeOfCategory(categories, row.categoryId) == Some(code)
    requires forall i :: 0 <= i < |categories| && categories[i].code == code ==> categories[i].id == row.categoryId
    requires !Clashes(NaturalKey, prizes, row)
    ensures |Select(prizes + [row], categories, Some(row.year), Some(code))| == 1
  {
    SelectAppend(prizes, [row], categories, Some(row.year), Some(code));
    NothingSelectedWithoutClash(prizes, categories, row, code);
    assert [row][1..] == [];
  }

  /**
    With the one-prize-per-(category key, year) constraint, and category key 1
    the only category with the code, the query by the new prize's year and that
    code returns exactly one prize: the new one, with its requested laureates.
   */
  lemma CreateThenReadIsSingle(db: Db, p: PrizeCreate, code: string)
    requires FreshKeys(db)
    requires UniqueRowKeys(db)
    requires !IsBlank(code)
    requires CodeOfCategory(db.categories, InsertedCategoryId) == Some(code)
    requires forall i :: 0 <= i < |db.categories| && db.categories[i].code == code ==> db.categories[i].id == InsertedCategoryId
    requires CreateNobelPrize(db, p, NaturalKey).result.Success?
    ensures var views := GetNobelPrizes(CreateNobelPrize(db, p, NaturalKey).db, Some(p.year), Some(code));
            && |views| == 1
            && views[0].category == code && views[0].year == p.year && views[0].url == p.url
            && |views[0].laureates| == |p.laureates|
            && forall k :: 0 <= k < |p.laureates| ==> ShowsLaureate(db, views[0].laureates[k], p.laureates[k])
  {
    var after := CreateNobelPrize(db, p, NaturalKey).db;
    var row := PrizeRow(db.nextPrizeId, InsertedCategoryId, p.year, p.url);
    assert after.prizes == db.prizes + [row];
    assert after.categories == db.categories;
    SelectAfterCreateIsSingle(db.prizes, db.categories, row, code);
    CreateThenRead(db, p, NaturalKey, code);
  }
}
