/**
 * The search of `ProximityAnalyzer.analyze` for a person/phone pair whose
 * boxes overlap: persons in the outer loop, phones in the inner loop, and
 * the first overlapping pair wins.
 */
module OverlapSearch {
  import opened Wrappers
  import opened Geometry

  /** The person box and the phone box of the pair handed to the tracker. */
  datatype Pair = Pair(person: Box, phone: Box)

  /** The first phone, in list order, that overlaps `person`. */
  function FirstPhoneFor(person: Box, phones: seq<Box>): Option<Box> {
    if phones == [] then None
    else if BoxesOverlap(person, phones[0]) then Some(phones[0])
    else FirstPhoneFor(person, phones[1..])
  }

  /** The first overlapping pair in person-major, then phone order. */
  function FirstOverlap(persons: seq<Box>, phones: seq<Box>): Option<Pair> {
    if persons == [] then None
    else match FirstPhoneFor(persons[0], phones)
      case Some(phone) => Some(Pair(persons[0], phone))
      case None => FirstOverlap(persons[1..], phones)
  }

  /** Pair (i', j') is visited before pair (i, j) by the nested loops. */
  predicate VisitedBefore(i': int, j': int, i: int, j: int) {
    i' < i || (i' == i && j' < j)
  }

  /** Characterises `FirstPhoneFor` by the index of the phone it returns. */
  lemma {:induction false} FirstPhoneForSpec(person: Box, phones: seq<Box>) returns (j: nat)
    ensures FirstPhoneFor(person, phones).None? <==>
      forall k :: 0 <= k < |phones| ==> !BoxesOverlap(person, phones[k])
    ensures FirstPhoneFor(person, phones).Some? ==>
      j < |phones| && FirstPhoneFor(person, phones).value == phones[j] &&
      BoxesOverlap(person, phones[j]) &&
      forall k :: 0 <= k < j ==> !BoxesOverlap(person, phones[k])
  {
    if phones == [] {
      j := 0;
    } else if BoxesOverlap(person, phones[0]) {
      j := 0;
    } else {
      var j1 := FirstPhoneForSpec(person, phones[1..]);
      j := j1 + 1;
      assert forall k :: 1 <= k < |phones| ==> phones[k] == phones[1..][k - 1];
    }
  }

  /**
   * `FirstOverlap` finds no pair exactly when no person overlaps any phone,
   * and otherwise returns the pair at indices (i, j) that overlaps, with no
   * overlapping pair visited before it.
   */
  lemma {:induction false} FirstOverlapSpec(persons: seq<Box>, phones: seq<Box>) returns (i: nat, j: nat)
    ensures FirstOverlap(persons, phones).None? <==>
      forall p, q :: 0 <= p < |persons| && 0 <= q < |phones| ==> !BoxesOverlap(persons[p], phones[q])
    ensures FirstOverlap(persons, phones).Some? ==>
      i < |persons| && j < |phones| &&
      FirstOverlap(persons, phones).value == Pair(persons[i], phones[j]) &&
      BoxesOverlap(persons[i], phones[j]) &&
      forall p, q :: 0 <= p < |persons| && 0 <= q < |phones| && VisitedBefore(p, q, i, j) ==>
        !BoxesOverlap(persons[p], phones[q])
  {
    if persons == [] {
      i, j := 0, 0;
    } else {
      var j0 := FirstPhoneForSpec(persons[0], phones);
      if FirstPhoneFor(persons[0], phones).Some? {
        i, j := 0, j0;
      } else {
        var i1, j1 := FirstOverlapSpec(persons[1..], phones);
        i, j := i1 + 1, j1;
        assert forall p :: 1 <= p < |persons| ==> persons[p] == persons[1..][p - 1];
      }
    }
  }

  /**
   * The nested search of `analyze`: scan persons, and for each person the
   * phones, stopping at the first overlapping pair.
   */
  method FindOverlappingPair(persons: seq<Box>, phones: seq<Box>) returns (bestPair: Option<Pair>)
    ensures bestPair == FirstOverlap(persons, phones)
  {
    var overlapFound := false;
    bestPair := None;
    for i := 0 to |persons|
      invariant !overlapFound && bestPair == None
      invariant FirstOverlap(persons[i..], phones) == FirstOverlap(persons, phones)
    {
      var person := persons[i];
      for j := 0 to |phones|
        invariant !overlapFound && bestPair == None
        invariant FirstPhoneFor(person, phones[j..]) == FirstPhoneFor(person, phones)
      {
        if BoxesOverlap(person, phones[j]) {
          overlapFound := true;
          bestPair := Some(Pair(person, phones[j]));
          break;
        }
        assert phones[j..][1..] == phones[j + 1..];
      }
      if overlapFound {
        break;
      }
      assert persons[i..][1..] == persons[i + 1..];
    }
  }
}
