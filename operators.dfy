/**
 * The operator table: the three predicates a check can ask of the part of the
 * page it looks at (its scope).
 */
module Operators {
  import opened Wrappers
  import opened Strings
  import opened Dom

  datatype Operator = Contains | NotContains | Matches

  /** Looking an operator up by its name in the table; `None` is the `KeyError` of an unknown name. */
  function OperatorNamed(name: string): (r: Option<Operator>)
    ensures r.Some? <==> name == "contains" || name == "not_contains" || name == "matches"
    ensures r == Some(Contains) <==> name == "contains"
    ensures r == Some(NotContains) <==> name == "not_contains"
    ensures r == Some(Matches) <==> name == "matches"
  {
    if name == "contains" then Some(Contains)
    else if name == "not_contains" then Some(NotContains)
    else if name == "matches" then Some(Matches)
    else None
  }

  /**
   * Applies operator `op` with the check's value to element `scope` of `d`.
   * For the two text operators the page text is lower-cased but the value is not.
   */
  function Holds(op: Operator, value: string, d: Document, scope: nat): bool {
    match op
    case Contains => IsSubstring(value, Lower(d.getText(scope)))
    case NotContains => !IsSubstring(value, Lower(d.getText(scope)))
    case Matches => |d.select(scope, value)| > 0
  }

  /** `contains` holds iff the value occurs somewhere in the lower-cased text of the scope. */
  lemma ContainsMeansOccurs(value: string, d: Document, scope: nat)
    ensures Holds(Contains, value, d, scope) ==> exists i :: OccursAt(value, Lower(d.getText(scope)), i)
    ensures (exists i :: OccursAt(value, Lower(d.getText(scope)), i)) ==> Holds(Contains, value, d, scope)
  {
    SubstringIff(value, Lower(d.getText(scope)));
  }

  /** `not_contains` is the negation of `contains` on the same value and scope. */
  lemma NotContainsNegatesContains(value: string, d: Document, scope: nat)
    ensures Holds(NotContains, value, d, scope) == !Holds(Contains, value, d, scope)
  {
  }

  /** `matches` holds iff the selector picks at least one element; an empty selection is not an error. */
  lemma MatchesMeansSelected(value: string, d: Document, scope: nat)
    ensures Holds(Matches, value, d, scope) <==> d.select(scope, value) != []
  {
  }

  /**
   * Because only the page text is lower-cased, a value with an ASCII capital in it
   * never satisfies `contains` and always satisfies `not_contains`.
   */
  lemma CapitalisedValueNeverContained(value: string, d: Document, scope: nat, k: int)
    requires 0 <= k < |value| && IsAsciiUpper(value[k])
    ensures !Holds(Contains, value, d, scope)
    ensures Holds(NotContains, value, d, scope)
  {
    var text := Lower(d.getText(scope));
    if IsSubstring(value, text) {
      SubstringChars(value, text, k);
    }
  }

  /** A lower-case value is found in text whose capitals differ from it. */
  lemma InStockScenario(d: Document, scope: nat)
    requires d.getText(scope) == "In Stock Now"
    ensures Holds(Contains, "in stock", d, scope)
    ensures !Holds(NotContains, "in stock", d, scope)
  {
    var text := Lower(d.getText(scope));
    assert text == "in stock now";
    assert OccursAt("in stock", text, 0);
    SubstringIff("in stock", text);
  }

  /** The same value is not found in text where it does not occur. */
  lemma OutOfStockScenario(d: Document, scope: nat)
    requires d.getText(scope) == "Out of stock"
    ensures !Holds(Contains, "in stock", d, scope)
  {
    var text := Lower(d.getText(scope));
    assert text == "out of stock";
    assert |text| == 12;
    SubstringIff("in stock", text);
    forall i | 0 <= i <= 4
      ensures !OccursAt("in stock", text, i)
    {
      assert text[i..i + 8][0] == text[i] && text[i..i + 8][2] == text[i + 2];
    }
  }
}
