/**
 * Pause durations for prosodic boundaries.
 *
 * A boundary element that has no `duration` attribute yet receives one chosen from its
 * `breakindex` attribute; an element that already has one is left alone.
 */
module BoundaryModel {

  /** A DOM element, reduced to its attributes (name to string value). */
  class Element {
    var attributes: map<string, string>

    constructor (attributes: map<string, string>)
      ensures this.attributes == attributes
    {
      this.attributes := attributes;
    }
  }

  /** The DOM's `getAttribute`: the empty string when the attribute is absent. */
  function GetAttribute(attributes: map<string, string>, name: string): string {
    if name in attributes then attributes[name] else ""
  }

  /**
   * The pause lengths, in milliseconds, of the listed break indices, as numbers: the reference
   * against which `BreakIndexTable` checks the strings `BreakIndexDuration` writes.
   */
  const BREAK_DURATIONS: map<string, nat> :=
    map["4" := 240, "5" := 520, "6" := 1240, "7" := 1240, "8" := 1240, "9" := 300]

  /** The pause length of every other break index, a missing one included. */
  const DEFAULT_DURATION: nat := 210

  /** The attribute value written for a boundary of the given break index. */
  function BreakIndexDuration(breakindex: string): (r: string)
    ensures IsDecimal(r)
  {
    if breakindex == "4" then "240"
    else if breakindex == "5" then "520"
    else if breakindex == "6" then "1240"
    else if breakindex == "7" then "1240"
    else if breakindex == "8" then "1240"
    else if breakindex == "9" then "300"
    else "210"
  }

  predicate IsDigit(c: char) { '0' <= c <= '9' }

  /** A non-empty string of decimal digits. */
  predicate IsDecimal(s: string) {
    |s| > 0 && forall i :: 0 <= i < |s| ==> IsDigit(s[i])
  }

  /** The number a decimal digit string denotes. */
  function DecimalValue(s: string): nat
    requires forall i :: 0 <= i < |s| ==> IsDigit(s[i])
  {
    if s == [] then 0
    else
      assert IsDigit(s[|s| - 1]);
      10 * DecimalValue(s[..|s| - 1]) + (s[|s| - 1] as int - '0' as int)
  }

  /** What `applyTo` does to one element's attributes. */
  function AssignDuration(attributes: map<string, string>, target: string): (r: map<string, string>)
    ensures target in r
    ensures r.Keys == attributes.Keys + {target}
    ensures forall k :: k in attributes && k != target ==> r[k] == attributes[k]
    ensures target in attributes ==> r == attributes
  {
    if target in attributes then attributes
    else attributes[target := BreakIndexDuration(GetAttribute(attributes, "breakindex"))]
  }

  /**
   * The value written is a decimal number of milliseconds, and it is the one the break-index
   * table gives, or the default for any break index outside the table.
   */
  lemma BreakIndexTable(breakindex: string)
    ensures IsDecimal(BreakIndexDuration(breakindex))
    ensures DecimalValue(BreakIndexDuration(breakindex))
      == if breakindex in BREAK_DURATIONS then BREAK_DURATIONS[breakindex] else DEFAULT_DURATION
  {
    var s := BreakIndexDuration(breakindex);
    if |s| == 3 {
      ThreeDigitValue(s);
    } else {
      ThreeDigitValue(s[..3]);
      DecimalValueSnoc(s[..3], s[3]);
      assert s[..3] + [s[3]] == s;
    }
  }

  /** A three-digit string denotes hundreds, tens and units. */
  lemma ThreeDigitValue(s: string)
    requires |s| == 3 && IsDecimal(s)
    ensures DecimalValue(s) == 100 * (s[0] as int - '0' as int) + 10 * (s[1] as int - '0' as int) + (s[2] as int - '0' as int)
  {
    DecimalValueSnoc([], s[0]);
    assert [s[0]] == s[..1];
    DecimalValueSnoc(s[..1], s[1]);
    assert s[..1] + [s[1]] == s[..2];
    DecimalValueSnoc(s[..2], s[2]);
    assert s[..2] + [s[2]] == s;
  }

  /** Appending a digit multiplies by ten and adds the digit. */
  lemma DecimalValueSnoc(s: string, c: char)
    requires forall i :: 0 <= i < |s| ==> IsDigit(s[i])
    requires IsDigit(c)
    ensures forall i :: 0 <= i < |s + [c]| ==> IsDigit((s + [c])[i])
    ensures DecimalValue(s + [c]) == 10 * DecimalValue(s) + (c as int - '0' as int)
  {
    assert (s + [c])[..|s|] == s;
  }

  /** A missing target attribute is filled from the break index; a present one is kept. */
  lemma AssignDurationValue(attributes: map<string, string>, target: string)
    ensures target in attributes ==> AssignDuration(attributes, target)[target] == attributes[target]
    ensures target !in attributes ==>
      var bi := GetAttribute(attributes, "breakindex");
      DecimalValue(AssignDuration(attributes, target)[target])
        == if bi in BREAK_DURATIONS then BREAK_DURATIONS[bi] else DEFAULT_DURATION
  {
    BreakIndexTable(GetAttribute(attributes, "breakindex"));
  }

  /** Assigning twice is assigning once. */
  lemma AssignDurationIdempotent(attributes: map<string, string>, target: string)
    ensures AssignDuration(AssignDuration(attributes, target), target) == AssignDuration(attributes, target)
  {
  }

  /**
   * `applyTo`: every element of the list ends up with the target attribute; elements that had
   * it are untouched, and no other attribute changes. An element listed twice is handled once,
   * since the second visit finds the attribute present.
   */
  method ApplyTo(elements: seq<Element>, targetAttributeName: string)
    modifies elements
    ensures forall e :: e in elements ==>
      e.attributes == AssignDuration(old(e.attributes), targetAttributeName)
  {
    for i := 0 to |elements|
      invariant forall e :: e in elements ==>
        e.attributes == if e in elements[..i] then AssignDuration(old(e.attributes), targetAttributeName)
                        else old(e.attributes)
    {
      var element := elements[i];
      if targetAttributeName !in element.attributes {
        var breakindex := GetAttribute(element.attributes, "breakindex");
        element.attributes := element.attributes[targetAttributeName := BreakIndexDuration(breakindex)];
      }
      assert elements[..i + 1] == elements[..i] + [element];
    }
  }
}
