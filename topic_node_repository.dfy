/** The role filter of `FindByRoles`: the nodes a caller may post in are
    those whose `roles` column, with a comma appended, matches the regular
    expression built here from the caller's comma-separated roles. */
module TopicNodeRepository {
  import opened Strings

  /** `fmt.Sprintf("(%s,)", strings.ReplaceAll(roles, ",", ",|"))`. */
  function RoleFilter(roles: string): (filter: string)
    ensures |filter| >= 3 && filter[0] == '(' && filter[|filter| - 2..] == ",)"
  {
    "(" + ReplaceAll(roles, ',', ",|") + ",)"
  }

  /** Each role followed by a comma: the alternatives of the filter. */
  function WithComma(parts: seq<string>): (r: seq<string>)
    ensures |r| == |parts| && forall i :: 0 <= i < |parts| ==> r[i] == parts[i] + ","
  {
    seq(|parts|, i requires 0 <= i < |parts| => parts[i] + ",")
  }

  /** The filter is the alternation of the roles, each followed by a comma,
      in parentheses: "a,b" gives "(a,|b,)". */
  lemma RoleFilterIsAlternation(roles: string)
    ensures RoleFilter(roles) == "(" + Join(WithComma(Split(roles, ',')), "|") + ")"
  {
    ReplaceAllIsSplitJoin(roles, ',', ",|");
    JoinWithComma(Split(roles, ','));
    assert RoleFilter(roles) == "(" + (Join(Split(roles, ','), ",|") + ",") + ")";
  }

  lemma {:induction false} JoinWithComma(parts: seq<string>)
    requires parts != []
    ensures Join(parts, ",|") + "," == Join(WithComma(parts), "|")
  {
    if |parts| > 1 {
      JoinWithComma(parts[1..]);
      assert WithComma(parts)[1..] == WithComma(parts[1..]);
      assert Join(parts, ",|") + "," == (parts[0] + ",") + "|" + (Join(parts[1..], ",|") + ",");
    }
  }

  /** One alternative per role: without '|' in the input, the filter holds
      exactly one '|' per comma. */
  lemma RoleFilterBars(roles: string)
    requires '|' !in roles
    ensures Count(RoleFilter(roles), '|') == Count(roles, ',')
  {
    var mid := ReplaceAll(roles, ',', ",|");
    CountReplaceAll(roles, ',', ",|", '|');
    CountAbsent(roles, '|');
    assert Count(",|", '|') == 1 by {
      assert ",|"[1..] == "|" && "|"[1..] == [];
    }
    CountAppend("(" + mid, ",)", '|');
    CountAppend("(", mid, '|');
    assert Count(",)", '|') == 0 by {
      assert ",)"[1..] == ")" && ")"[1..] == [];
    }
  }

  /** A single role gives the one alternative "role,"; no roles at all give "(,)". */
  lemma RoleFilterSingleRole(roles: string)
    requires ',' !in roles
    ensures RoleFilter(roles) == "(" + roles + ",)"
    ensures roles == "" ==> RoleFilter(roles) == "(,)"
  {
    ReplaceAllAbsent(roles, ',', ",|");
  }
}
