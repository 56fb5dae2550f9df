/** The validator's behaviour on the requests its unit tests use, and on the edge cases of the code as written. */
module ValidatorExamples {
  import opened Wrappers
  import opened Fractions
  import opened Validator

  const Physics: CategoryCode := "P"

  function Person(id: string, n: int, d: int): (l: LaureateCreate)
  {
    LaureateCreate(LaureateType(Some(id), None), None, Fraction(n, d))
  }

  function Organization(id: string, n: int, d: int): (l: LaureateCreate)
  {
    LaureateCreate(LaureateType(None, Some(id)), None, Fraction(n, d))
  }

  function Prize(category: CategoryCode, ls: seq<LaureateCreate>): (p: PrizeCreate)
  {
    PrizeCreate(category, 1902, None, ls)
  }

  /** One person with share 1/1 is valid. */
  lemma SinglePersonPasses()
    ensures IsValid(Prize(Physics, [Person("1", 1, 1)])) == None
  {
    KeysCountDistinct([Person("1", 1, 1)]);
  }

  /** Three distinct persons with share 1/3 each are valid. */
  lemma ThreeThirdsPass()
    ensures IsValid(Prize(Physics, [Person("1", 1, 3), Person("2", 1, 3), Person("3", 1, 3)])) == None
  {
    var three := [Person("1", 1, 3), Person("2", 1, 3), Person("3", 1, 3)];
    assert ValidateLaureates(Prize(Physics, three)) == None by {
      assert DistinctKeys(three);
    }
    assert ValidateFractions(Prize(Physics, three)) == None by {
      assert Shares(three) == [Fraction(1, 3), Fraction(1, 3), Fraction(1, 3)];
      ThreeThirdsAddUp();
    }
  }

  /** Three shares of 1/3 fold to the equal totals 27/27. */
  lemma ThreeThirdsAddUp()
    ensures AddsUpToOne([Fraction(1, 3), Fraction(1, 3), Fraction(1, 3)])
  {
    var third := Fraction(1, 3);
    assert [third, third] == [third] + [third];
    assert [third, third, third] == [third, third] + [third];
    FoldAppend([], third);
    FoldAppend([third], third);
    FoldAppend([third, third], third);
    assert Fold([third, third, third]) == Total(27, 27);
  }

  /** A single share of 2/1 sums to more than one. */
  lemma InvalidFractionFails()
    ensures IsValid(Prize(Physics, [Person("1", 2, 1)])) == Some(FractionSum)
  {
    KeysCountDistinct([Person("1", 2, 1)]);
  }

  /** The same person twice, or the same organization twice in a Peace Prize, is a duplicate even with shares summing to one. */
  lemma NonUniqueLaureatesFail()
    ensures IsValid(Prize(Physics, [Person("1", 1, 2), Person("1", 1, 2)])) == Some(DuplicateLaureates)
    ensures IsValid(Prize(Peace, [Organization("1", 1, 2), Organization("1", 1, 2)])) == Some(DuplicateLaureates)
  {
    SharedKeyRejected(Prize(Physics, [Person("1", 1, 2), Person("1", 1, 2)]));
    SharedKeyRejected(Prize(Peace, [Organization("1", 1, 2), Organization("1", 1, 2)]));
  }

  /** A laureate built as a person, or as an organization, with a null identifier names no one. */
  lemma LaureateWithoutIdentifierFails()
    ensures IsValid(Prize(Physics, [LaureateCreate(LaureateType(None, None), None, Fraction(1, 1))])) == Some(NoLaureate)
  {
    NoIdentifierRejected(Prize(Physics, [LaureateCreate(LaureateType(None, None), None, Fraction(1, 1))]), 0);
  }

  /** No laureates at all, and four distinct persons with 1/4 each, are both rejected on the count. */
  lemma InvalidNumberOfLaureatesFails()
    ensures IsValid(Prize(Physics, [])) == Some(LaureateCount)
    ensures IsValid(Prize(Physics, [Person("1", 1, 4), Person("2", 1, 4), Person("3", 1, 4), Person("4", 1, 4)]))
            == Some(LaureateCount)
  {
    var four := [Person("1", 1, 4), Person("2", 1, 4), Person("3", 1, 4), Person("4", 1, 4)];
    assert DistinctKeys(four);
    CountOutOfRangeRejected(Prize(Physics, four));
  }

  /** An organization may not win the Physics prize, even with a valid share. */
  lemma OrganizationWinningPhysicsFails()
    ensures IsValid(Prize(Physics, [Organization("org", 1, 1)])) == Some(OrganizationOutsidePeace)
  {
    OrganizationOutsidePeaceRejected(Prize(Physics, [Organization("org", 1, 1)]), 0);
  }

  /** Keys are bare strings: person "1" and organization "1" collide in a Peace Prize. */
  lemma PersonAndOrganizationKeysCollide()
    ensures IsValid(Prize(Peace, [Person("1", 1, 2), Organization("1", 1, 2)])) == Some(DuplicateLaureates)
  {
    SharedKeyRejected(Prize(Peace, [Person("1", 1, 2), Organization("1", 1, 2)]));
  }

  /** A laureate naming both a person and an organization. */
  const Both := LaureateCreate(LaureateType(Some("p"), Some("o")), None, Fraction(1, 2))

  /** Such a laureate is keyed by its person identifier, so it clashes with an organization of that identifier. */
  lemma BothIdentifiersKeyedByPerson()
    ensures LaureateKey(Both) == "p"
    ensures IsValid(Prize(Peace, [Both, Organization("p", 1, 2)])) == Some(DuplicateLaureates)
  {
    SharedKeyRejected(Prize(Peace, [Both, Organization("p", 1, 2)]));
  }

  /** Such a laureate passes in a Peace Prize. */
  lemma BothIdentifiersAcceptedInPeace()
    ensures IsValid(Prize(Peace, [Both, Organization("o", 1, 2)])) == None
  {
    var ok := [Both, Organization("o", 1, 2)];
    assert ValidateLaureates(Prize(Peace, ok)) == None by {
      assert DistinctKeys(ok);
    }
    assert ValidateFractions(Prize(Peace, ok)) == None by {
      assert Shares(ok) == [Fraction(1, 2), Fraction(1, 2)];
      TwoHalvesAddUp();
    }
  }

  /** Two shares of 1/2 fold to the equal totals 4/4. */
  lemma TwoHalvesAddUp()
    ensures AddsUpToOne([Fraction(1, 2), Fraction(1, 2)])
  {
    assert [Fraction(1, 2), Fraction(1, 2)] == [Fraction(1, 2)] + [Fraction(1, 2)];
    FoldAppend([], Fraction(1, 2));
    FoldAppend([Fraction(1, 2)], Fraction(1, 2));
    assert Fold([Fraction(1, 2), Fraction(1, 2)]) == Total(4, 4);
  }

  /** Denominators are not checked: a single share of 0/0 is accepted. */
  lemma ZeroOverZeroAccepted()
    ensures IsValid(Prize(Physics, [Person("1", 0, 0)])) == None
  {
    var ls := [Person("1", 0, 0)];
    KeysCountDistinct(ls);
    assert ValidateLaureates(Prize(Physics, ls)) == None;
    assert Shares(ls) == [] + [Fraction(0, 0)];
    TrailingZeroShareAccepted([]);
    assert ValidateFractions(Prize(Physics, ls)) == None;
  }

  /** Signs are not checked: shares 2/1 and -1/1 sum to one and are accepted. */
  lemma NegativeShareAccepted()
    ensures IsValid(Prize(Physics, [Person("1", 2, 1), Person("2", -1, 1)])) == None
  {
    var ls := [Person("1", 2, 1), Person("2", -1, 1)];
    assert ValidateLaureates(Prize(Physics, ls)) == None by {
      assert DistinctKeys(ls);
    }
    assert ValidateFractions(Prize(Physics, ls)) == None by {
      assert Shares(ls) == [Fraction(2, 1), Fraction(-1, 1)];
      TwoMinusOneAddsUp();
    }
  }

  /** Shares 2/1 and -1/1 fold to the equal totals 1/1. */
  lemma TwoMinusOneAddsUp()
    ensures AddsUpToOne([Fraction(2, 1), Fraction(-1, 1)])
  {
    assert [Fraction(2, 1), Fraction(-1, 1)] == [Fraction(2, 1)] + [Fraction(-1, 1)];
    FoldAppend([], Fraction(2, 1));
    FoldAppend([Fraction(2, 1)], Fraction(-1, 1));
    assert Fold([Fraction(2, 1), Fraction(-1, 1)]) == Total(1, 1);
  }
}
