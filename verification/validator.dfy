/**
  The admission check run on a prize-creation request before anything is
  written: per-laureate checks in list order, then a duplicate check on bare
  identifier strings, then the laureate count, and finally (only when all of
  those pass) the exact fraction-sum check.

  The result is `None` when the request is valid and `Some(reason)` with the
  message the validator records otherwise.
 */
module Validator {
  import opened Wrappers
  import opened Fractions

  /** A prize category, by its code. */
  type CategoryCode = string

  /** The code of the Nobel Peace Prize, the only category an organization may win. */
  const Peace: CategoryCode := "PC"

  /** Who a laureate is: a person identifier and/or an organization identifier. */
  datatype LaureateType = LaureateType(personIdentifier: Option<string>, organizationIdentifier: Option<string>)

  datatype LaureateCreate = LaureateCreate(laureateType: LaureateType, description: Option<string>, fraction: Fraction)

  datatype PrizeCreate = PrizeCreate(category: CategoryCode, year: int, url: Option<string>, laureates: seq<LaureateCreate>)

  const NoLaureate := "Nobel Prize has no laureate"
  const OrganizationOutsidePeace := "Organizations can only win the Nobel Peace Prize"
  const DuplicateLaureates := "Duplicate laureates found"
  const LaureateCount := "# of laureates must be 1 to 3"
  const FractionSum := "Sum of fractions does not add up to 1"

  predicate HasIdentifier(l: LaureateCreate)
  {
    l.laureateType.personIdentifier.Some? || l.laureateType.organizationIdentifier.Some?
  }

  predicate HasOrganization(l: LaureateCreate)
  {
    l.laureateType.organizationIdentifier.Some?
  }

  /** The check of one laureate: it must name someone, and only a Peace Prize may go to an organization. */
  function ValidateLaureate(category: CategoryCode, l: LaureateCreate): (r: Option<string>)
    ensures r == None <==> HasIdentifier(l) && (HasOrganization(l) ==> category == Peace)
    ensures r == Some(NoLaureate) <==> !HasIdentifier(l)
    ensures r == Some(OrganizationOutsidePeace) <==> HasIdentifier(l) && HasOrganization(l) && category != Peace
  {
    if !HasIdentifier(l) then Some(NoLaureate)
    else if HasOrganization(l) && category != Peace then Some(OrganizationOutsidePeace)
    else None
  }

  /** The reason of the first laureate, in list order, that fails its check. */
  function FirstFailure(category: CategoryCode, ls: seq<LaureateCreate>): (r: Option<string>)
    ensures r == None <==> forall i :: 0 <= i < |ls| ==> ValidateLaureate(category, ls[i]) == None
    ensures r.Some? ==> exists i :: 0 <= i < |ls| && ValidateLaureate(category, ls[i]) == r
                                    && forall j :: 0 <= j < i ==> ValidateLaureate(category, ls[j]) == None
  {
    if |ls| == 0 then None
    else match ValidateLaureate(category, ls[0])
      case Some(reason) =>
        assert ValidateLaureate(category, ls[0]) == Some(reason);
        Some(reason)
      case None =>
        var tail := ls[1..];
        var rest := FirstFailure(category, tail);
        if rest.Some? then
          ghost var k :| 0 <= k < |tail| && ValidateLaureate(category, tail[k]) == rest
                         && forall j :: 0 <= j < k ==> ValidateLaureate(category, tail[j]) == None;
          assert forall j :: 0 < j < k + 1 ==> ls[j] == tail[j - 1];
          assert 0 <= k + 1 < |ls| && ValidateLaureate(category, ls[k + 1]) == rest
                 && forall j :: 0 <= j < k + 1 ==> ValidateLaureate(category, ls[j]) == None;
          rest
        else
          assert forall i :: 0 < i < |ls| ==> ls[i] == tail[i - 1];
          rest
  }

  /** The key the duplicate check files a laureate under: the person identifier if present, else the organization identifier. */
  function LaureateKey(l: LaureateCreate): (k: string)
    requires HasIdentifier(l)
  {
    match l.laureateType.personIdentifier
    case Some(id) => id
    case None => l.laureateType.organizationIdentifier.value
  }

  predicate AllIdentified(ls: seq<LaureateCreate>)
  {
    forall i :: 0 <= i < |ls| ==> HasIdentifier(ls[i])
  }

  /** The set of keys the validator collects, adding one per laureate in list order. */
  function Keys(ls: seq<LaureateCreate>): (ks: set<string>)
    requires AllIdentified(ls)
  {
    if |ls| == 0 then {} else Keys(ls[..|ls| - 1]) + {LaureateKey(ls[|ls| - 1])}
  }

  /** Reference for the duplicate check: no two laureates share a key. */
  predicate DistinctKeys(ls: seq<LaureateCreate>)
    requires AllIdentified(ls)
  {
    forall i, j :: 0 <= i < j < |ls| ==> LaureateKey(ls[i]) != LaureateKey(ls[j])
  }

  /** The collected set holds exactly the laureates' keys, and never more keys than laureates. */
  lemma {:induction false} KeysContents(ls: seq<LaureateCreate>)
    requires AllIdentified(ls)
    ensures forall k :: k in Keys(ls) <==> exists i :: 0 <= i < |ls| && LaureateKey(ls[i]) == k
    ensures |Keys(ls)| <= |ls|
  {
    if |ls| > 0 {
      var init := ls[..|ls| - 1];
      assert forall i :: 0 <= i < |init| ==> init[i] == ls[i];
      KeysContents(init);
    }
  }

  /** A list with one more laureate has distinct keys iff the shorter list does and the new key is not among them. */
  lemma DistinctKeysSnoc(ls: seq<LaureateCreate>)
    requires |ls| > 0 && AllIdentified(ls)
    ensures AllIdentified(ls[..|ls| - 1])
    ensures DistinctKeys(ls) <==> DistinctKeys(ls[..|ls| - 1])
                                  && forall i :: 0 <= i < |ls| - 1 ==> LaureateKey(ls[i]) != LaureateKey(ls[|ls| - 1])
  {
    var init := ls[..|ls| - 1];
    assert forall i :: 0 <= i < |init| ==> init[i] == ls[i];
    if DistinctKeys(init) && forall i :: 0 <= i < |init| ==> LaureateKey(ls[i]) != LaureateKey(ls[|ls| - 1]) {
      forall i, j | 0 <= i < j < |ls| ensures LaureateKey(ls[i]) != LaureateKey(ls[j]) {
        if j < |ls| - 1 {
          assert LaureateKey(init[i]) != LaureateKey(init[j]);
        }
      }
    }
  }

  /** The duplicate check rejects exactly when two laureates share a key. */
  lemma {:induction false} KeysCountDistinct(ls: seq<LaureateCreate>)
    requires AllIdentified(ls)
    ensures |Keys(ls)| == |ls| <==> DistinctKeys(ls)
  {
    if |ls| > 0 {
      var init := ls[..|ls| - 1];
      var k := LaureateKey(ls[|ls| - 1]);
      DistinctKeysSnoc(ls);
      KeysCountDistinct(init);
      KeysContents(init);
      assert Keys(ls) == Keys(init) + {k};
      if k in Keys(init) {
        var i :| 0 <= i < |init| && LaureateKey(init[i]) == k;
        assert LaureateKey(ls[i]) == k;
      } else {
        assert |Keys(ls)| == |Keys(init)| + 1;
        assert forall i :: 0 <= i < |init| ==> LaureateKey(ls[i]) != k by {
          forall i | 0 <= i < |init| ensures LaureateKey(ls[i]) != k {
            assert init[i] == ls[i];
          }
        }
      }
    }
  }

  /** The reasons the laureate part of the check can record. */
  const LaureateReasons: set<string> := {NoLaureate, OrganizationOutsidePeace, DuplicateLaureates, LaureateCount}

  /**
    The laureate part of the check: per-laureate checks, then duplicates, then
    the count. It passes exactly when every laureate passes, no key is shared
    and there are one to three laureates.
   */
  function ValidateLaureates(p: PrizeCreate): (r: Option<string>)
    ensures r.None? <==> && (forall i :: 0 <= i < |p.laureates| ==> ValidateLaureate(p.category, p.laureates[i]) == None)
                         && AllIdentified(p.laureates) && DistinctKeys(p.laureates)
                         && 1 <= |p.laureates| <= 3
    ensures r.Some? ==> r.value in LaureateReasons
  {
    match FirstFailure(p.category, p.laureates)
    case Some(reason) =>
      ghost var i :| 0 <= i < |p.laureates| && ValidateLaureate(p.category, p.laureates[i]) == Some(reason);
      Some(reason)
    case None =>
      var keys := Keys(p.laureates);
      KeysCountDistinct(p.laureates);
      if |p.laureates| != |keys| then Some(DuplicateLaureates)
      else if |keys| == 0 || |keys| > 3 then Some(LaureateCount)
      else None
  }

  /** The shares of a request, in laureate order. */
  function Shares(ls: seq<LaureateCreate>): (fs: seq<Fraction>)
    ensures |fs| == |ls| && forall i :: 0 <= i < |ls| ==> fs[i] == ls[i].fraction
  {
    seq(|ls|, i requires 0 <= i < |ls| => ls[i].fraction)
  }

  /**
    The fraction part of the check. Its only reason is the fraction message, and
    with nonzero denominators it passes exactly when the shares sum to one.
   */
  function ValidateFractions(p: PrizeCreate): (r: Option<string>)
    ensures r.None? || r == Some(FractionSum)
    ensures NonzeroDenominators(Shares(p.laureates)) ==> (r.None? <==> Sum(Shares(p.laureates)) == 1.0)
  {
    var fs := Shares(p.laureates);
    if NonzeroDenominators(fs) then
      AddsUpToOneIffSumIsOne(fs);
      if AddsUpToOne(fs) then None else Some(FractionSum)
    else
      if AddsUpToOne(fs) then None else Some(FractionSum)
  }

  /** Every reason the whole check can record. */
  const Reasons: set<string> := LaureateReasons + {FractionSum}

  /**
    The whole check; the fraction part runs only when the laureate part passes.
    It accepts exactly the admissible requests, and a rejection carries one of
    the five messages.
   */
  function IsValid(p: PrizeCreate): (r: Option<string>)
    ensures r.None? <==> Admissible(p)
    ensures r.Some? ==> r.value in Reasons
  {
    match ValidateLaureates(p)
    case Some(reason) => Some(reason)
    case None => ValidateFractions(p)
  }

  /**
    Reference: what a valid request is, as the code enforces it. Every laureate
    names someone, organizations only in the Peace category, no key twice,
    one to three laureates, and the cross-multiplied totals equal.
   */
  predicate Admissible(p: PrizeCreate)
  {
    var ls := p.laureates;
    && AllIdentified(ls)
    && (forall i :: 0 <= i < |ls| ==> HasOrganization(ls[i]) ==> p.category == Peace)
    && DistinctKeys(ls)
    && 1 <= |ls| <= 3
    && AddsUpToOne(Shares(ls))
  }

  /** With nonzero denominators, a request is accepted exactly when its laureate checks pass and its shares sum to one. */
  lemma IsValidIffSharesSumToOne(p: PrizeCreate)
    requires NonzeroDenominators(Shares(p.laureates))
    ensures IsValid(p) == None <==> ValidateLaureates(p) == None && Sum(Shares(p.laureates)) == 1.0
  {
    AddsUpToOneIffSumIsOne(Shares(p.laureates));
  }

  /** A failing laureate part decides the outcome and its reason; the fraction check is not consulted. */
  lemma LaureateFailureShortCircuits(p: PrizeCreate)
    requires ValidateLaureates(p).Some?
    ensures IsValid(p) == ValidateLaureates(p)
    ensures IsValid(p) != Some(FractionSum)
  {
    var ls := p.laureates;
    if FirstFailure(p.category, ls).Some? {
      var i :| 0 <= i < |ls| && ValidateLaureate(p.category, ls[i]) == FirstFailure(p.category, ls);
    }
  }

  /** The first failing laureate, in list order, gives the recorded reason. */
  lemma FirstFailingLaureateDecides(p: PrizeCreate, i: nat)
    requires i < |p.laureates|
    requires forall j :: 0 <= j < i ==> ValidateLaureate(p.category, p.laureates[j]) == None
    requires ValidateLaureate(p.category, p.laureates[i]).Some?
    ensures IsValid(p) == ValidateLaureate(p.category, p.laureates[i])
  {
    var ls := p.laureates;
    var r := FirstFailure(p.category, ls);
    var k :| 0 <= k < |ls| && ValidateLaureate(p.category, ls[k]) == r
             && forall j :: 0 <= j < k ==> ValidateLaureate(p.category, ls[j]) == None;
    assert k == i;
  }

  /** A laureate naming no one, met before any other failing laureate, is rejected for that, whatever the category. */
  lemma NoIdentifierRejected(p: PrizeCreate, i: nat)
    requires i < |p.laureates|
    requires forall j :: 0 <= j < i ==> ValidateLaureate(p.category, p.laureates[j]) == None
    requires p.laureates[i].laureateType == LaureateType(None, None)
    ensures IsValid(p) == Some(NoLaureate)
  {
    FirstFailingLaureateDecides(p, i);
  }

  /** An organization laureate outside the Peace category, met before any other failing laureate, is rejected for that. */
  lemma OrganizationOutsidePeaceRejected(p: PrizeCreate, i: nat)
    requires i < |p.laureates|
    requires forall j :: 0 <= j < i ==> ValidateLaureate(p.category, p.laureates[j]) == None
    requires HasOrganization(p.laureates[i]) && p.category != Peace
    ensures IsValid(p) == Some(OrganizationOutsidePeace)
  {
    FirstFailingLaureateDecides(p, i);
  }

  /** Once every laureate passes, a shared key is rejected as a duplicate, before the count and the fractions are looked at. */
  lemma SharedKeyRejected(p: PrizeCreate)
    requires forall i :: 0 <= i < |p.laureates| ==> ValidateLaureate(p.category, p.laureates[i]) == None
    ensures AllIdentified(p.laureates)
    ensures !DistinctKeys(p.laureates) ==> IsValid(p) == Some(DuplicateLaureates)
  {
    KeysCountDistinct(p.laureates);
  }

  /** Once every laureate passes with distinct keys, the count must be one to three. */
  lemma CountOutOfRangeRejected(p: PrizeCreate)
    requires forall i :: 0 <= i < |p.laureates| ==> ValidateLaureate(p.category, p.laureates[i]) == None
    ensures AllIdentified(p.laureates)
    ensures DistinctKeys(p.laureates) && (|p.laureates| == 0 || |p.laureates| > 3)
            ==> IsValid(p) == Some(LaureateCount)
  {
    KeysCountDistinct(p.laureates);
  }

  /** "Duplicate laureates found" is recorded only when every laureate passes and two of them share a key. */
  lemma DuplicateReasonOnlyFromSharedKey(p: PrizeCreate)
    requires IsValid(p) == Some(DuplicateLaureates)
    ensures forall i :: 0 <= i < |p.laureates| ==> ValidateLaureate(p.category, p.laureates[i]) == None
    ensures AllIdentified(p.laureates) && !DistinctKeys(p.laureates)
  {
    if FirstFailure(p.category, p.laureates) == None {
      KeysCountDistinct(p.laureates);
    }
  }

  /** The count message is recorded only when every laureate passes with distinct keys and there are none or more than three. */
  lemma CountReasonOnlyOutOfRange(p: PrizeCreate)
    requires IsValid(p) == Some(LaureateCount)
    ensures forall i :: 0 <= i < |p.laureates| ==> ValidateLaureate(p.category, p.laureates[i]) == None
    ensures AllIdentified(p.laureates) && DistinctKeys(p.laureates)
    ensures |p.laureates| == 0 || |p.laureates| > 3
  {
    if FirstFailure(p.category, p.laureates) == None {
      KeysCountDistinct(p.laureates);
    }
  }

  /** Once the laureate part passes, the fraction check decides, and fails exactly when the totals differ. */
  lemma FractionCheckDecides(p: PrizeCreate)
    requires ValidateLaureates(p) == None
    ensures IsValid(p) == None <==> Fold(Shares(p.laureates)).nominator == Fold(Shares(p.laureates)).denominator
    ensures IsValid(p) != None ==> IsValid(p) == Some(FractionSum)
  {
  }
}
