/**
  Creating a prize: insert the prize row, then one laureate row per requested
  laureate in request order, resolving identifiers to keys as it goes. The
  whole create is one transaction: if the prize row clashes with the unique
  constraint, or any identifier does not resolve, no row is written. The key
  the database generated for the prize row is still consumed, since a key
  generator is not rolled back with the transaction.
 */
module PrizeWriter {
  import opened Wrappers
  import opened Fractions
  import opened Validator
  import opened Store

  /** The category key the prize insert writes, whatever category the request names. */
  const InsertedCategoryId := 1

  /**
    The unique constraint of the prize table, which lives in the schema rather
    than in the repository: does an existing row clash with a row being inserted?
   */
  type UniqueConstraint = (PrizeRow, PrizeRow) -> bool

  /** The one-prize-per-(category key, year) constraint. */
  const NaturalKey: UniqueConstraint := (a: PrizeRow, b: PrizeRow) => a.categoryId == b.categoryId && a.year == b.year

  predicate Clashes(unique: UniqueConstraint, prizes: seq<PrizeRow>, row: PrizeRow)
  {
    exists i :: 0 <= i < |prizes| && unique(prizes[i], row)
  }

  /** The two nullable foreign keys of a laureate row. */
  datatype ForeignKeys = ForeignKeys(personId: Option<int>, organizationId: Option<int>)

  /** Every identifier the laureate carries names an existing person or organization. */
  predicate Resolvable(db: Db, l: LaureateCreate)
  {
    && (l.laureateType.personIdentifier.Some? ==>
          exists i :: 0 <= i < |db.persons| && db.persons[i].personIdentifier == l.laureateType.personIdentifier.value)
    && (l.laureateType.organizationIdentifier.Some? ==>
          exists i :: 0 <= i < |db.organizations|
                      && db.organizations[i].organizationIdentifier == l.laureateType.organizationIdentifier.value)
  }

  /** A key is set exactly when its identifier is present, and it is the key of that identifier. */
  predicate RecordsKeys(db: Db, l: LaureateCreate, k: ForeignKeys)
  {
    && (k.personId.Some? <==> l.laureateType.personIdentifier.Some?)
    && (k.personId.Some? ==> PersonHasKey(db, l.laureateType.personIdentifier.value, k.personId.value))
    && (k.organizationId.Some? <==> l.laureateType.organizationIdentifier.Some?)
    && (k.organizationId.Some? ==> OrganizationHasKey(db, l.laureateType.organizationIdentifier.value, k.organizationId.value))
  }

  /**
    The lookups of one laureate: the person key only when a person identifier
    is present, then the organization key only when an organization identifier
    is present. A failed lookup raises not-found for that identifier.
   */
  function ResolveLaureate(db: Db, l: LaureateCreate): (r: Result<ForeignKeys, Error>)
    ensures r.Success? <==> Resolvable(db, l)
    ensures r.Success? ==> RecordsKeys(db, l, r.value)
    ensures r.Failure? && l.laureateType.personIdentifier.Some?
            && !(exists i :: 0 <= i < |db.persons| && db.persons[i].personIdentifier == l.laureateType.personIdentifier.value)
            ==> r.error == PersonNotFound(l.laureateType.personIdentifier.value)
    ensures r.Failure? && (l.laureateType.personIdentifier.Some? ==>
              exists i :: 0 <= i < |db.persons| && db.persons[i].personIdentifier == l.laureateType.personIdentifier.value)
            ==> l.laureateType.organizationIdentifier.Some?
                && r.error == OrganizationNotFound(l.laureateType.organizationIdentifier.value)
  {
    var personKey :=
      match l.laureateType.personIdentifier
      case None => Success(None)
      case Some(id) => match PersonPrimaryKey(db, id)
        case Success(k) => Success(Some(k))
        case Failure(e) => Failure(e);
    if personKey.Failure? then Failure(personKey.error)
    else
      var organizationKey :=
        match l.laureateType.organizationIdentifier
        case None => Success(None)
        case Some(id) => match OrganizationPrimaryKey(db, id)
          case Success(k) => Success(Some(k))
          case Failure(e) => Failure(e);
      if organizationKey.Failure? then Failure(organizationKey.error)
      else Success(ForeignKeys(personKey.value, organizationKey.value))
  }

  /** The row written for a laureate: it references the prize and copies description and share verbatim. */
  predicate RecordsLaureate(db: Db, prizeId: int, l: LaureateCreate, row: LaureateRow)
  {
    && row.prizeId == prizeId
    && row.description == l.description
    && row.nominator == l.fraction.nominator
    && row.denominator == l.fraction.denominator
    && RecordsKeys(db, l, ForeignKeys(row.personId, row.organizationId))
  }

  /** The laureate rows of a new prize, in request order; the first unresolvable laureate aborts. */
  function LaureateRows(db: Db, prizeId: int, ls: seq<LaureateCreate>): (r: Result<seq<LaureateRow>, Error>)
    ensures r.Success? <==> forall i :: 0 <= i < |ls| ==> Resolvable(db, ls[i])
    ensures r.Success? ==> |r.value| == |ls|
    ensures r.Success? ==> forall i :: 0 <= i < |ls| ==> RecordsLaureate(db, prizeId, ls[i], r.value[i])
    ensures r.Failure? ==> exists i :: 0 <= i < |ls| && ResolveLaureate(db, ls[i]) == Failure(r.error)
                                       && forall j :: 0 <= j < i ==> Resolvable(db, ls[j])
  {
    if |ls| == 0 then Success([])
    else
      assert forall i :: 1 <= i < |ls| ==> ls[i] == ls[1..][i - 1];
      match ResolveLaureate(db, ls[0])
      case Failure(e) => Failure(e)
      case Success(k) =>
        var row := LaureateRow(prizeId, k.personId, k.organizationId, ls[0].description,
                               ls[0].fraction.nominator, ls[0].fraction.denominator);
        match LaureateRows(db, prizeId, ls[1..])
        case Failure(e) =>
          ghost var i :| 0 <= i < |ls| - 1 && ResolveLaureate(db, ls[1..][i]) == Failure(e)
                         && forall j :: 0 <= j < i ==> Resolvable(db, ls[1..][j]);
          assert ResolveLaureate(db, ls[i + 1]) == Failure(e);
          Failure(e)
        case Success(rows) => Success([row] + rows)
  }

  /** The state after a create, and either the new prize's key or the error raised. */
  datatype Outcome = Outcome(db: Db, result: Result<int, Error>)

  /** Creates a prize and its laureates in one transaction; a failure writes no row but consumes the generated key. */
  function CreateNobelPrize(db: Db, p: PrizeCreate, unique: UniqueConstraint): (r: Outcome)
    ensures r.result.Failure? ==> r.db == db.(nextPrizeId := db.nextPrizeId + 1)
    ensures r.result == Failure(EntityExists(PrizeExistsMessage))
            <==> Clashes(unique, db.prizes, PrizeRow(db.nextPrizeId, InsertedCategoryId, p.year, p.url))
    ensures r.result.Success?
            <==> !Clashes(unique, db.prizes, PrizeRow(db.nextPrizeId, InsertedCategoryId, p.year, p.url))
                 && forall i :: 0 <= i < |p.laureates| ==> Resolvable(db, p.laureates[i])
    ensures r.result.Success? ==>
              && r.result.value == db.nextPrizeId
              && r.db.nextPrizeId == db.nextPrizeId + 1
              && r.db.prizes == db.prizes + [PrizeRow(db.nextPrizeId, InsertedCategoryId, p.year, p.url)]
              && |r.db.laureates| == |db.laureates| + |p.laureates|
              && r.db.laureates[..|db.laureates|] == db.laureates
              && (forall i :: 0 <= i < |p.laureates| ==>
                    RecordsLaureate(db, db.nextPrizeId, p.laureates[i], r.db.laureates[|db.laureates| + i]))
              && r.db.categories == db.categories
              && r.db.persons == db.persons
              && r.db.organizations == db.organizations
  {
    var id := db.nextPrizeId;
    var row := PrizeRow(id, InsertedCategoryId, p.year, p.url);
    var consumed := db.(nextPrizeId := id + 1);
    if Clashes(unique, db.prizes, row) then Outcome(consumed, Failure(EntityExists(PrizeExistsMessage)))
    else match LaureateRows(db, id, p.laureates)
      case Failure(e) => Outcome(consumed, Failure(e))
      case Success(rows) =>
        var written := db.(prizes := db.prizes + [row], laureates := db.laureates + rows, nextPrizeId := id + 1);
        assert written.laureates[..|db.laureates|] == db.laureates;
        Outcome(written, Success(id))
  }

  /** A create keeps every key below the next generated key. */
  lemma CreatePreservesFreshKeys(db: Db, p: PrizeCreate, unique: UniqueConstraint)
    requires FreshKeys(db)
    ensures FreshKeys(CreateNobelPrize(db, p, unique).db)
  {
    var out := CreateNobelPrize(db, p, unique);
    if out.result.Success? {
      forall i | 0 <= i < |out.db.laureates| ensures out.db.laureates[i].prizeId < out.db.nextPrizeId {
        if i < |db.laureates| {
          assert out.db.laureates[i] == out.db.laureates[..|db.laureates|][i];
        } else {
          assert RecordsLaureate(db, db.nextPrizeId, p.laureates[i - |db.laureates|], out.db.laureates[i]);
        }
      }
    }
  }

  /**
    Under the natural-key constraint, once a prize is created any later request
    for the same year is refused as already existing and leaves every table as
    it was, whatever category it names, because every inserted row carries the
    same category key.
   */
  lemma SameYearConflicts(db: Db, p: PrizeCreate, q: PrizeCreate)
    requires CreateNobelPrize(db, p, NaturalKey).result.Success?
    requires q.year == p.year
    ensures var after := CreateNobelPrize(db, p, NaturalKey).db;
            CreateNobelPrize(after, q, NaturalKey)
            == Outcome(after.(nextPrizeId := after.nextPrizeId + 1), Failure(EntityExists(PrizeExistsMessage)))
  {
    var after := CreateNobelPrize(db, p, NaturalKey).db;
    var i := |db.prizes|;
    assert after.prizes[i] == PrizeRow(db.nextPrizeId, InsertedCategoryId, p.year, p.url);
    assert NaturalKey(after.prizes[i], PrizeRow(after.nextPrizeId, InsertedCategoryId, q.year, q.url));
  }
}
