/** The substring leaf matcher of the audience-condition evaluator: a string
    condition operand is searched for in a string attribute value. */
module SubstringMatch {
  import opened Wrappers
  import opened JavaString

  /** A condition or attribute operand as the matcher receives it: a string,
      or anything else (null, a number, a boolean, another object). */
  datatype Value = Text(s: string) | NotText

  /** The three outcomes of a leaf; `Unknown` is the source's `null`. */
  datatype TriState = True | False | Unknown

  /** The condition operand itself has the wrong type. */
  datatype MatchError = UnexpectedValueType

  function FromBool(b: bool): (t: TriState)
    ensures t != Unknown && (t == True <==> b)
  {
    if b then True else False
  }

  /** `eval(conditionValue, attributeValue)`: the condition is checked first,
      then the attribute, then containment decides. */
  function Eval(condition: Value, attribute: Value): (r: Result<TriState, MatchError>)
    ensures condition.NotText? <==> r == Failure(UnexpectedValueType)
    ensures condition.Text? && attribute.NotText? ==> r == Success(Unknown)
    ensures r == Success(True) <==>
              condition.Text? && attribute.Text? && IsSubstring(condition.s, attribute.s)
    ensures r == Success(False) <==>
              condition.Text? && attribute.Text? && !IsSubstring(condition.s, attribute.s)
  {
    if condition.NotText? then Failure(UnexpectedValueType)
    else if attribute.NotText? then Success(Unknown)
    else Success(FromBool(Contains(attribute.s, condition.s)))
  }

  /** The empty condition matches every string attribute. */
  lemma EmptyConditionMatches(attribute: string)
    ensures Eval(Text([]), Text(attribute)) == Success(True)
  {
    assert OccursAt(attribute, [], 0);
  }

  /** A string attribute equal to the condition matches it. */
  lemma EqualStringsMatch(s: string)
    ensures Eval(Text(s), Text(s)) == Success(True)
  {
    assert s[0..|s|] == s;
    assert OccursAt(s, s, 0);
  }

  /** A definite answer needs two strings; otherwise the result is an error
      or `Unknown`. */
  lemma DefiniteOnlyForText(condition: Value, attribute: Value)
    ensures Eval(condition, attribute) in {Success(True), Success(False)} <==>
              condition.Text? && attribute.Text?
  {
  }

  lemma OccursInExtension(hay: string, needle: string, i: nat, before: string, after: string)
    requires OccursAt(hay, needle, i)
    ensures OccursAt(before + hay + after, needle, |before| + i)
  {
    var big := before + hay + after;
    var j := |before| + i;
    assert forall k :: 0 <= k < |needle| ==> big[j + k] == hay[i + k] == needle[k];
    assert big[j..j + |needle|] == needle;
  }

  /** A match survives extending the attribute on either side. */
  lemma MatchSurvivesExtension(condition: string, attribute: string, before: string, after: string)
    requires Eval(Text(condition), Text(attribute)) == Success(True)
    ensures Eval(Text(condition), Text(before + attribute + after)) == Success(True)
  {
    var i: nat :| OccursAt(attribute, condition, i);
    OccursInExtension(attribute, condition, i, before, after);
  }

  /** A match survives shortening the condition to any of its own substrings. */
  lemma MatchSurvivesShorterCondition(condition: string, attribute: string, part: string)
    requires IsSubstring(part, condition)
    requires Eval(Text(condition), Text(attribute)) == Success(True)
    ensures Eval(Text(part), Text(attribute)) == Success(True)
  {
    var i: nat :| OccursAt(attribute, condition, i);
    var j: nat :| OccursAt(condition, part, j);
    assert forall k :: 0 <= k < |part| ==> condition[j + k] == part[k];
    assert forall k :: 0 <= k < |condition| ==> attribute[i + k] == condition[k];
    assert attribute[i + j..i + j + |part|] == part;
    assert OccursAt(attribute, part, i + j);
  }
}
