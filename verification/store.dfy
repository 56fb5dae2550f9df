/**
  The tables the prize repository reads and writes, as immutable sequences of
  rows, and the identity resolution the writer needs: from an external person
  or organization identifier to the internal primary key.
 */
module Store {
  import opened Wrappers

  datatype CategoryRow = CategoryRow(id: int, code: string)

  datatype PrizeRow = PrizeRow(id: int, categoryId: int, year: int, url: Option<string>)

  /** A laureate line of a prize; at most one of the two foreign keys is normally set. */
  datatype LaureateRow = LaureateRow(
    prizeId: int,
    personId: Option<int>,
    organizationId: Option<int>,
    description: Option<string>,
    nominator: int,
    denominator: int)

  /** A person, reduced to its key, its external identifier and its name. */
  datatype PersonRow = PersonRow(id: int, personIdentifier: string, name: string)

  /** An organization, reduced to its key, its external identifier and its name. */
  datatype OrganizationRow = OrganizationRow(id: int, organizationIdentifier: string, name: string)

  /** The database; `nextPrizeId` stands in for the key generator of the prize table. */
  datatype Db = Db(
    categories: seq<CategoryRow>,
    prizes: seq<PrizeRow>,
    laureates: seq<LaureateRow>,
    persons: seq<PersonRow>,
    organizations: seq<OrganizationRow>,
    nextPrizeId: int)

  /** Errors the create path raises. */
  datatype Error =
    | EntityExists(message: string)
    | PersonNotFound(personIdentifier: string)
    | OrganizationNotFound(organizationIdentifier: string)

  const PrizeExistsMessage := "This Nobel Prize already exists"

  /** Every stored prize key, and every key a laureate row refers to, is below the next generated key. */
  predicate FreshKeys(db: Db)
  {
    && (forall i :: 0 <= i < |db.prizes| ==> db.prizes[i].id < db.nextPrizeId)
    && (forall i :: 0 <= i < |db.laureates| ==> db.laureates[i].prizeId < db.nextPrizeId)
  }

  predicate PersonHasKey(db: Db, identifier: string, key: int)
  {
    exists i :: 0 <= i < |db.persons| && db.persons[i].personIdentifier == identifier && db.persons[i].id == key
  }

  predicate OrganizationHasKey(db: Db, identifier: string, key: int)
  {
    exists i :: 0 <= i < |db.organizations| && db.organizations[i].organizationIdentifier == identifier
                && db.organizations[i].id == key
  }

  /** Primary key of the person with this identifier; fails with not-found when there is none. */
  function PersonPrimaryKey(db: Db, identifier: string): (r: Result<int, Error>)
    ensures r.Success? <==> exists i :: 0 <= i < |db.persons| && db.persons[i].personIdentifier == identifier
    ensures r.Success? ==> PersonHasKey(db, identifier, r.value)
    ensures r.Failure? ==> r.error == PersonNotFound(identifier)
  {
    match FirstIndex(db.persons, (p: PersonRow) => p.personIdentifier == identifier)
    case Some(i) => Success(db.persons[i].id)
    case None => Failure(PersonNotFound(identifier))
  }

  /** Primary key of the organization with this identifier; fails with not-found when there is none. */
  function OrganizationPrimaryKey(db: Db, identifier: string): (r: Result<int, Error>)
    ensures r.Success? <==> exists i :: 0 <= i < |db.organizations| && db.organizations[i].organizationIdentifier == identifier
    ensures r.Success? ==> OrganizationHasKey(db, identifier, r.value)
    ensures r.Failure? ==> r.error == OrganizationNotFound(identifier)
  {
    match FirstIndex(db.organizations, (o: OrganizationRow) => o.organizationIdentifier == identifier)
    case Some(i) => Success(db.organizations[i].id)
    case None => Failure(OrganizationNotFound(identifier))
  }
}
