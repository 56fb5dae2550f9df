# Nobel Prize admission and aggregate persistence, in Dafny

This project models the core of a small Quarkus service that records Nobel
Prizes. It covers two parts.

- **Admission check (`NobelPrizeValidatorImpl`).** It decides whether a
  prize-creation request may be stored. The request has a category, a year and
  a list of laureates. Each laureate has a person identifier and/or an
  organization identifier, plus a share given as a nominator and a denominator.
- **Prize repository (`NobelPrizeRepository`).** It writes a prize row and its
  laureate rows in one transaction. It reads prizes back with an optional year
  filter and an optional category filter, with each prize's laureates nested
  inside it. Each laureate carries the person and the organization its foreign
  keys point to, both read into the `Person` shape.

Modules, one per component:

| file | module | models |
|---|---|---|
| `wrappers.dfy` | `Wrappers` | `Option` (a Java reference that may be null), `Result` (a value or a thrown error), and a first-match search |
| `fractions.dfy` | `Fractions` | the unreduced cross-multiplication fold of the fraction check, and its relation to the exact rational sum |
| `validator.dfy` | `Validator` | `isValid`, `validateLaureates`, `validateLaureate`, `validateFractions` as pure functions returning `None` (valid) or `Some(reason)` |
| `validator_examples.dfy` | `ValidatorExamples` | the requests of the validator's unit tests, plus edge cases of the code as written |
| `store.dfy` | `Store` | the tables as immutable sequences of rows, and identifier-to-key resolution |
| `writer.dfy` | `PrizeWriter` | `createNobelPrize`, `createNobelPrizeLaureates`, `createLaureate` |
| `reader.dfy` | `PrizeReader` | `getNobelPrizes`: join, filters, ordering and nesting |
| `roundtrip.dfy` | `RoundTrip` | what a create followed by a read returns |

## How the model follows the code

- The validator runs in the code's order. First the per-laureate checks, in
  list order, stopping at the first failure. Then the duplicate check on the set
  of bare identifier strings. Then the count check (1 to 3). The fraction check
  runs only if all of these pass. Each rejection returns the exact message the
  code records.
- Duplicate keys are not tagged by kind. Person "1" and organization "1"
  collide. A laureate with both identifiers passes in the Peace category, and
  its key is its person identifier.
- Denominators are not checked for zero or sign: positive denominators are not
  enforced, and the model follows the code. A single 0/0 share passes: see
  `Fractions.TrailingZeroShareAccepted` and
  `ValidatorExamples.ZeroOverZeroAccepted`. Shares 2/1 and -1/1 pass too.
  With nonzero denominators and unbounded integers, the check accepts exactly
  when the shares sum to one as rationals (`Fractions.AddsUpToOneIffSumIsOne`).
  Java's 32-bit `int` breaks this: for shares 1/65536 and 131071/65536, which
  sum to 2, both totals wrap to 0, so Java accepts them. The model does not
  wrap (see "Left out").
- The prize insert writes category key `1` whatever category the request names
  (`NobelPrizeRepository.java:66`). The model keeps that literal
  (`PrizeWriter.InsertedCategoryId`). So a prize reads back under the code of
  category 1 (`RoundTrip.CreateThenRead`). Under a unique constraint on
  (category, year), any second request for the same year then conflicts
  (`PrizeWriter.SameYearConflicts`).
- The unique constraint on the prize table belongs to the database schema, not
  to the repository. It is therefore a parameter of the create
  (`PrizeWriter.UniqueConstraint`). `PrizeWriter.NaturalKey` is the
  one-prize-per-(category key, year) constraint.
- A create runs in one transaction. When it fails, no table changes. The key
  generator still advances, because the prize key is generated by the database
  on insert (`returningResult(NOBEL_PRIZE.ID)`, `NobelPrizeRepository.java:67`)
  and a key generator is not rolled back with the transaction. So a failed
  create consumes a key, and the next successful create returns a larger one. A clash on the prize insert raises "This Nobel Prize
  already exists". An identifier that does not resolve raises not-found for
  that identifier. For each laureate, the person lookup comes before the
  organization lookup, and laureates are looked up in request order.
- `PersonService.getPrimaryKey` is modelled with the shape of
  `OrganizationService.getPrimaryKey`.
- The database's key generator for prize rows is the counter `Db.nextPrizeId`.
- Person rows and organization rows are both read into the `Person` class
  (`NobelPrizeRepository.java:109` and `:116`). The model's `PrizeReader.PersonView`
  is that shape, reduced to a person identifier and a name. A person keeps
  both. An organization keeps its name, and its organization identifier is
  lost, because `Person` has no field for it. So a create followed by a read
  shows an organization laureate by name only (`RoundTrip.ShowsLaureate`).
- Rows equal in year and category key, which the database leaves in no
  particular order, keep store order in the model. The sort inserts each row
  after the rows equal to it. `PrizeReader.SortKeepsTies` states this for two
  rows.

## Model

| member | source | states |
|---|---|---|
| Fractions.FoldDenominator | src/main/java/com/schotanus/nobel/validation/NobelPrizeValidatorImpl.java:95-103 | after the fold, denominatorTotal is the product of all denominators, whatever their values |
| Fractions.FoldInvariant | src/main/java/com/schotanus/nobel/validation/NobelPrizeValidatorImpl.java:94-103 | with nonzero denominators, the running denominator is a nonzero product and nominatorTotal / denominatorTotal equals the rational sum of the shares folded so far |
| Fractions.AddsUpToOneIffSumIsOne | src/main/java/com/schotanus/nobel/validation/NobelPrizeValidatorImpl.java:105-110 | with nonzero denominators, the totals are equal exactly when the shares sum to one |
| Fractions.TrailingZeroShareAccepted | src/main/java/com/schotanus/nobel/validation/NobelPrizeValidatorImpl.java:101-105 | any list of shares ending in 0/0 passes the equality test, because that step zeroes both totals |
| Fractions.FoldShares | src/main/java/com/schotanus/nobel/validation/NobelPrizeValidatorImpl.java:94-103 | the accumulation loop ends with the fold's totals, with denominatorTotal equal to the product of the denominators, and (for nonzero denominators) with equal totals exactly when the shares sum to one |
| Validator.ValidateLaureate | src/main/java/com/schotanus/nobel/validation/NobelPrizeValidatorImpl.java:122-138 | a laureate passes iff it names someone and names an organization only in the Peace category; "Nobel Prize has no laureate" iff it names no one; the organization message iff it names an organization outside Peace |
| Validator.FirstFailure | src/main/java/com/schotanus/nobel/validation/NobelPrizeValidatorImpl.java:60-64 | no reason iff every laureate passes; otherwise the reason is that of a failing laureate with all earlier laureates passing |
| Validator.KeysContents | src/main/java/com/schotanus/nobel/validation/NobelPrizeValidatorImpl.java:58-68 | the collected set holds exactly the laureates' keys (person identifier, else organization identifier), and has no more elements than there are laureates |
| Validator.KeysCountDistinct | src/main/java/com/schotanus/nobel/validation/NobelPrizeValidatorImpl.java:66-74 | the set is as large as the list iff no two laureates share a key |
| Validator.ValidateLaureates | src/main/java/com/schotanus/nobel/validation/NobelPrizeValidatorImpl.java:55-82 | the laureate part passes iff every laureate passes its own check, no two laureates share a key and there are 1 to 3 laureates; a rejection carries one of its four messages |
| Validator.ValidateFractions | src/main/java/com/schotanus/nobel/validation/NobelPrizeValidatorImpl.java:91-111 | the fraction part rejects only with "Sum of fractions does not add up to 1", and with nonzero denominators passes iff the shares sum to exactly one |
| Validator.IsValid | src/main/java/com/schotanus/nobel/validation/NobelPrizeValidatorImpl.java:43-111 | a request is accepted iff every laureate names someone, organizations appear only in Peace, keys are pairwise distinct, there are 1 to 3 laureates and the fold's totals are equal; a rejection carries one of the five messages |
| Validator.IsValidIffSharesSumToOne | src/main/java/com/schotanus/nobel/validation/NobelPrizeValidatorImpl.java:43-46 | with nonzero denominators, a request is accepted iff the laureate part passes and the shares sum to exactly one |
| Validator.LaureateFailureShortCircuits | src/main/java/com/schotanus/nobel/validation/NobelPrizeValidatorImpl.java:45 | when the laureate part fails, its reason is the outcome and the fraction message never is |
| Validator.FirstFailingLaureateDecides | src/main/java/com/schotanus/nobel/validation/NobelPrizeValidatorImpl.java:60-64 | the first failing laureate in list order gives the recorded reason, before duplicates, count or fractions are looked at |
| Validator.NoIdentifierRejected | src/main/java/com/schotanus/nobel/validation/NobelPrizeValidatorImpl.java:127-130 | a laureate with neither identifier, reached in list order, rejects the request with "Nobel Prize has no laureate" in any category |
| Validator.OrganizationOutsidePeaceRejected | src/main/java/com/schotanus/nobel/validation/NobelPrizeValidatorImpl.java:132-135 | an organization laureate outside the Peace category, reached in list order, rejects the request with "Organizations can only win the Nobel Peace Prize" |
| Validator.SharedKeyRejected | src/main/java/com/schotanus/nobel/validation/NobelPrizeValidatorImpl.java:66-74 | once every laureate passes, two laureates sharing a key reject the request with "Duplicate laureates found", whatever the count and the shares |
| Validator.CountOutOfRangeRejected | src/main/java/com/schotanus/nobel/validation/NobelPrizeValidatorImpl.java:76-79 | once laureates pass with distinct keys, an empty list or more than three laureates rejects the request with "# of laureates must be 1 to 3" |
| Validator.DuplicateReasonOnlyFromSharedKey | src/main/java/com/schotanus/nobel/validation/NobelPrizeValidatorImpl.java:58-74 | "Duplicate laureates found" is recorded only when every laureate passes its own check and two laureates share a key |
| Validator.CountReasonOnlyOutOfRange | src/main/java/com/schotanus/nobel/validation/NobelPrizeValidatorImpl.java:58-79 | "# of laureates must be 1 to 3" is recorded only when every laureate passes with distinct keys and there are none or more than three |
| Validator.FractionCheckDecides | src/main/java/com/schotanus/nobel/validation/NobelPrizeValidatorImpl.java:91-111 | once the laureate part passes, the request is accepted iff the totals are equal, and otherwise rejected with "Sum of fractions does not add up to 1" |
| ValidatorExamples.SinglePersonPasses | src/test/java/com/schotanus/nobel/validation/NobelPrizeValidatorImplTests.java:36-43 | one person with share 1/1 is accepted |
| ValidatorExamples.ThreeThirdsPass | src/test/java/com/schotanus/nobel/validation/NobelPrizeValidatorImplTests.java:45-54 | three distinct persons with 1/3 each are accepted |
| ValidatorExamples.InvalidFractionFails | src/test/java/com/schotanus/nobel/validation/NobelPrizeValidatorImplTests.java:57-64 | a single 2/1 share is rejected for its sum |
| ValidatorExamples.NonUniqueLaureatesFail | src/test/java/com/schotanus/nobel/validation/NobelPrizeValidatorImplTests.java:66-85 | the same person twice, or the same organization twice in Peace, is rejected as a duplicate even though 1/2 + 1/2 = 1 |
| ValidatorExamples.LaureateWithoutIdentifierFails | src/test/java/com/schotanus/nobel/validation/NobelPrizeValidatorImplTests.java:87-105 | a laureate with a null identifier is rejected as naming no one |
| ValidatorExamples.InvalidNumberOfLaureatesFails | src/test/java/com/schotanus/nobel/validation/NobelPrizeValidatorImplTests.java:108-127 | no laureates, and four distinct persons with 1/4 each, are both rejected on the count |
| ValidatorExamples.OrganizationWinningPhysicsFails | src/test/java/com/schotanus/nobel/validation/NobelPrizeValidatorImplTests.java:129-136 | an organization with a 1/1 share in Physics is rejected with the organization message |
| ValidatorExamples.PersonAndOrganizationKeysCollide | src/main/java/com/schotanus/nobel/validation/NobelPrizeValidatorImpl.java:66-67 | person "1" and organization "1" in one Peace Prize are rejected as duplicates |
| ValidatorExamples.BothIdentifiersKeyedByPerson | src/main/java/com/schotanus/nobel/validation/NobelPrizeValidatorImpl.java:66-67 | a laureate with both identifiers is keyed by its person identifier and clashes with an organization of that identifier |
| ValidatorExamples.BothIdentifiersAcceptedInPeace | src/main/java/com/schotanus/nobel/validation/NobelPrizeValidatorImpl.java:127-135 | a laureate with both identifiers is accepted in a Peace Prize |
| ValidatorExamples.ZeroOverZeroAccepted | src/main/java/com/schotanus/nobel/validation/NobelPrizeValidatorImpl.java:101-105 | a single person with share 0/0 is accepted |
| ValidatorExamples.NegativeShareAccepted | src/main/java/com/schotanus/nobel/validation/NobelPrizeValidatorImpl.java:98-105 | shares 2/1 and -1/1 are accepted |
| Store.PersonPrimaryKey | src/it/java/com/schotanus/nobel/service/PersonServiceIT.java:30-43 | succeeds iff some person has the identifier, with the key of such a person; otherwise fails with not-found for that identifier |
| Store.OrganizationPrimaryKey | src/main/java/com/schotanus/nobel/service/OrganizationService.java:82-89 | succeeds iff some organization has the identifier, with the key of such an organization; otherwise fails with not-found for that identifier |
| PrizeWriter.ResolveLaureate | src/main/java/com/schotanus/nobel/repository/NobelPrizeRepository.java:135-144 | succeeds iff every present identifier resolves; a key is set iff its identifier is present, and it is that identifier's key; an unresolved person fails first, then an unresolved organization |
| PrizeWriter.LaureateRows | src/main/java/com/schotanus/nobel/repository/NobelPrizeRepository.java:131-182 | succeeds iff every laureate resolves, with one row per laureate in request order, each referencing the prize and copying description, nominator and denominator; otherwise the error is that of the first laureate that does not resolve |
| PrizeWriter.CreateNobelPrize | src/main/java/com/schotanus/nobel/repository/NobelPrizeRepository.java:53-77 | a clash of the new row (year and url from the request, category key 1) raises "This Nobel Prize already exists"; any failure leaves every table unchanged and consumes the generated key; success appends that prize row and the laureate rows, returns the new key and touches no other table |
| PrizeWriter.CreatePreservesFreshKeys | src/main/java/com/schotanus/nobel/repository/NobelPrizeRepository.java:59-74 | every prize key, and every key a laureate row references, stays below the next generated key |
| PrizeWriter.SameYearConflicts | src/main/java/com/schotanus/nobel/repository/NobelPrizeRepository.java:59-72 | under the (category, year) constraint, after a create any request for the same year, in any category, raises "already exists", leaves every table as it was and consumes a key |
| PrizeReader.CodeOfCategory | src/main/java/com/schotanus/nobel/repository/NobelPrizeRepository.java:124-125 | a prize joins to the code of a category row with its category key, and drops out iff there is none |
| PrizeReader.Select | src/main/java/com/schotanus/nobel/repository/NobelPrizeRepository.java:88-94 | the selected rows are exactly the stored prizes that have a category and meet the year condition (if a year is given) and the category condition (if a non-blank code is given) |
| PrizeReader.Sort | src/main/java/com/schotanus/nobel/repository/NobelPrizeRepository.java:127 | the result is ordered by year, then category key, and is a permutation of its input |
| PrizeReader.SortKeepsTies | src/main/java/com/schotanus/nobel/repository/NobelPrizeRepository.java:127 | two rows equal in year and category key keep their store order |
| PrizeReader.QueryRows | src/main/java/com/schotanus/nobel/repository/NobelPrizeRepository.java:124-127 | the query's rows are ordered by year and category key, and are a permutation of the selected prizes |
| PrizeReader.RowsOf | src/main/java/com/schotanus/nobel/repository/NobelPrizeRepository.java:120-121 | a prize's laureate rows all carry its key, and every stored row carrying its key is among them |
| PrizeReader.PersonOf | src/main/java/com/schotanus/nobel/repository/NobelPrizeRepository.java:105-111 | an absent key gives no person; otherwise the first person row with that key, read into the person shape with its identifier and name, or none iff no row has it |
| PrizeReader.OrganizationOf | src/main/java/com/schotanus/nobel/repository/NobelPrizeRepository.java:112-118 | an absent key gives no organization; otherwise the first organization row with that key, read into the person shape: its name is kept and it carries no identifier; none iff no row has the key |
| PrizeReader.PrizeViewOf | src/main/java/com/schotanus/nobel/repository/NobelPrizeRepository.java:96-123 | a prize's view carries its joined code, year and url; each laureate view is the view of a laureate row referencing the prize, and every such row has its view there |
| PrizeReader.PrizeViewCountsRows | src/main/java/com/schotanus/nobel/repository/NobelPrizeRepository.java:96-123 | a prize's laureate views are, in order, the views of a list of rows that holds each row referencing the prize as often as the table does, and no other row |
| PrizeReader.GetNobelPrizes | src/main/java/com/schotanus/nobel/repository/NobelPrizeRepository.java:86-129 | one view per selected prize; every view has the requested year if one is given and the requested code if a non-blank one is given; years never decrease along the result |
| PrizeReader.QueryIsSound | src/main/java/com/schotanus/nobel/repository/NobelPrizeRepository.java:96-128 | every returned view shows a stored prize meeting the conditions: its category code, year, url and the views of exactly its laureate rows |
| PrizeReader.QueryIsComplete | src/main/java/com/schotanus/nobel/repository/NobelPrizeRepository.java:88-94 | every stored prize that has a category and meets the conditions is shown by some returned view |
| PrizeReader.BlankBeyondAscii | src/main/java/com/schotanus/nobel/repository/NobelPrizeRepository.java:92 | a code of ideographic, em or line-separator spaces is blank, as Java's `isBlank` has it; one of no-break spaces, or with a letter, is not |
| PrizeReader.SelectIgnoresBlankCategory | src/main/java/com/schotanus/nobel/repository/NobelPrizeRepository.java:92-94 | a blank category code selects the same rows as no category |
| PrizeReader.BlankCategoryIsNoFilter | src/main/java/com/schotanus/nobel/repository/NobelPrizeRepository.java:92 | the query with a blank category code returns exactly what the query without one returns |
| PrizeReader.RowsOfAppend | src/main/java/com/schotanus/nobel/repository/NobelPrizeRepository.java:121 | a prize's laureate rows over two stretches of the table come stretch by stretch, in table order |
| PrizeReader.SelectAppend | src/main/java/com/schotanus/nobel/repository/NobelPrizeRepository.java:88-94 | the selection over two stretches of the prize table comes stretch by stretch, in table order |
| PrizeReader.RowsOfMultiset | src/main/java/com/schotanus/nobel/repository/NobelPrizeRepository.java:120-121 | a prize's laureate rows hold each row referencing the prize exactly as often as the table does, and no other row |
| PrizeReader.RowsOfAllMatching | src/main/java/com/schotanus/nobel/repository/NobelPrizeRepository.java:120 | when every row carries the prize's key, the prize's laureates are those rows in order |
| RoundTrip.RecordedLaureateReadsBack | src/main/java/com/schotanus/nobel/repository/NobelPrizeRepository.java:105-118 | with unique person and organization keys, a written laureate row reads back with the requested description and share, with the identifier and name of the person its person identifier names, and with only the name of the organization its organization identifier names |
| RoundTrip.CreatedLaureateRows | src/main/java/com/schotanus/nobel/repository/NobelPrizeRepository.java:134-146 | after a create, the new prize's laureate rows are exactly the rows written for its request, in request order |
| RoundTrip.CreateThenRead | src/it/java/com/schotanus/nobel/api/NobelPrizeApiImplIT.java:155-175 | after a create, under any unique constraint, the query by the prize's year and the code of category 1 returns the prize with its url and with its requested laureates in order, each showing the named person, or the named organization's name |
| RoundTrip.NothingSelectedWithoutClash | src/main/java/com/schotanus/nobel/repository/NobelPrizeRepository.java:59-72 | under the (category key, year) constraint, when no stored prize clashes with the row being inserted, the query by its year and by the only code of its category key selects nothing |
| RoundTrip.SelectAfterCreateIsSingle | src/it/java/com/schotanus/nobel/api/NobelPrizeApiImplIT.java:155-170 | under the (category key, year) constraint, adding a row that clashes with no stored prize leaves exactly one prize selected by its year and the only, non-blank code of its category key |
| RoundTrip.CreateThenReadIsSingle | src/it/java/com/schotanus/nobel/api/NobelPrizeApiImplIT.java:155-175 | under the (category key, year) constraint, with category 1 the only category having the non-blank code, the query after a create returns exactly one prize: the new one, with its url and its requested laureates in order |

## Left out

- Fractions.FoldShares: Java's 32-bit `int` arithmetic in the fold is not modelled. Its wrap-around on large products is not modelled either. Integers here are unbounded.
- PrizeReader.RowsOf: states membership only. How many times each row appears is stated by `RowsOfMultiset`, and order by `RowsOfAppend` and `RowsOfAllMatching`.
- PrizeReader.Sort: rows equal in year and category key keep store order. The SQL `ORDER BY` leaves their order unspecified. The contract states order and permutation; stability is stated only for two rows, by `SortKeepsTies`.
- PrizeReader.CodeOfCategory: the inner join takes the first category row with a matching key. This assumes category keys are unique, which the schema (not part of this model) presumably enforces.
- PrizeReader.GetNobelPrizes: `DSL.multiset` returns laureate rows in no specified order. The model uses table order.
- Store.PersonPrimaryKey: `fetchOneInto` throws when two rows match. The model takes the first match and assumes identifiers are unique.
- Store.OrganizationPrimaryKey: `fetchOneInto` throws when two rows match. The model takes the first match and assumes identifiers are unique.
- Person and organization rows are reduced to key, identifier and name. Their other columns play no part in the core. So the person shape read back is reduced to identifier and name. The description and url an organization shares with `Person` are not modelled.
- PrizeWriter.CreateNobelPrize: the laureate-row insert (`NobelPrizeRepository.java:162-181`) is assumed never to violate a constraint, and so is the prize insert apart from the unique constraint. In the code, a laureate-row violation escapes the try block at lines 58-72 and rolls the whole create back. A foreign-key failure of the literal category key 1 at line 66 is caught at line 70 and reported as "already exists". Neither can be expressed here. A laureate with both identifiers, which the validator accepts in the Peace category, is written with both keys set. A schema rule that exactly one key is set would reject that row. A failed create is modelled as consuming exactly one key, as a sequence-backed identity column does. A database that hands the key out again is not modelled.
- The audit columns `CREATEDBYID` and `LASTMODIFIEDBYID`, always written as 1, are left out. Nothing in the core reads them.
- SQL construction, connection handling and transaction isolation are left out. Concurrent creators racing on the unique constraint are left out too. A transaction is modelled as "on failure, return the original tables with the key generator advanced".
- The unique constraint itself lives in the schema, which is not part of this model. It is a parameter, and the model does not check it against the database.
- Bean Validation plumbing is left out: the context casts, `addMessageParameter` and the annotation's message template. The model returns the reason string.
- Null paths guarded elsewhere are left out: a null laureate type, a null laureate list, and null share parts. Input validation outside the core rules these out.
- Base-URL and redirect-URL building, the REST resources, exception-to-HTTP mapping and logging are left out. They hold no logic of the core.
- The person, organization, country and category repositories and services are left out, apart from key resolution. They are single-table create/read code.
- Category is its code string, and Peace is `"PC"`. The full list of category enum values is not modelled: only P, PC and E appear in the code.
