/**
  The session's rule list ("st.session_state.kurallar"): rules are appended by
  the add button and removed by position with the delete buttons.
 */
module Registry {
  import opened Table

  /** The add button's check: the category name is non-empty and at least one
      column filter was set. */
  predicate Accepts(name: string, filters: seq<Filter>)
  {
    name != [] && filters != []
  }

  /** The ordered list of rules kept for the session. */
  class RuleList {
    var rules: seq<Rule>

    /** Every stored rule passed the add check when it was added. */
    ghost predicate Valid()
      reads this
    {
      forall i :: 0 <= i < |rules| ==> Accepts(rules[i].name, rules[i].filters)
    }

    /** A new session starts with no rules. */
    constructor ()
      ensures Valid() && rules == []
    {
      rules := [];
    }

    /** The add button: when the check passes, the rule is appended at the end,
        whether or not a rule of the same name is already stored; otherwise the
        list is left as it is. */
    method Add(name: string, filters: seq<Filter>) returns (added: bool)
      requires Valid()
      modifies this
      ensures Valid()
      ensures added <==> Accepts(name, filters)
      ensures added ==> rules == old(rules) + [Rule(name, filters)]
      ensures !added ==> rules == old(rules)
      ensures added ==> |rules| == |old(rules)| + 1 && rules[..|old(rules)|] == old(rules)
    {
      added := Accepts(name, filters);
      if added {
        rules := rules + [Rule(name, filters)];
      }
    }

    /** The delete button of the rule at position i: exactly that rule goes, and
        the others keep their relative order. */
    method RemoveAt(i: nat) returns (removed: Rule)
      requires Valid() && i < |rules|
      modifies this
      ensures Valid()
      ensures removed == old(rules)[i]
      ensures rules == old(rules)[..i] + old(rules)[i + 1..]
      ensures |rules| == |old(rules)| - 1
      ensures forall j :: 0 <= j < i ==> rules[j] == old(rules)[j]
      ensures forall j :: i <= j < |rules| ==> rules[j] == old(rules)[j + 1]
    {
      removed := rules[i];
      rules := rules[..i] + rules[i + 1..];
    }
  }

  /** A session as the buttons drive it: a rule whose name is already stored is
      still appended, rejected rules change nothing, and deleting the last
      rule gives back the list before it was added. */
  method SessionScenario(f: Filter, g: Filter)
  {
    var list := new RuleList();
    var ok := list.Add("Senior", [f]);
    assert ok && list.rules == [Rule("Senior", [f])];
    ok := list.Add("Senior", [g]);
    assert ok && list.rules == [Rule("Senior", [f]), Rule("Senior", [g])];
    ok := list.Add("", [f]);
    assert !ok && |list.rules| == 2;
    ok := list.Add("Junior", []);
    assert !ok && |list.rules| == 2;
    var r := list.RemoveAt(0);
    assert r == Rule("Senior", [f]) && list.rules == [Rule("Senior", [g])];
    ok := list.Add("Junior", [f]);
    r := list.RemoveAt(1);
    assert r == Rule("Junior", [f]) && list.rules == [Rule("Senior", [g])];
  }
}
