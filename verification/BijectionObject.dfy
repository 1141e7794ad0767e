/** The matcher as the source runs it: two maps updated in place while terms are walked. */
module BijectionObject {
  import opened Common
  import opened Bijection

  class BlankNodeBijection {
    var leftToRight: map<Name, Name>
    var rightToLeft: map<Name, Name>

    function View(): State
      reads this
    {
      State(leftToRight, rightToLeft)
    }

    constructor ()
      ensures View() == State(map[], map[])
    {
      leftToRight, rightToLeft := map[], map[];
    }

    method Matches(left: Name, right: Name) returns (ok: bool)
      modifies this
      ensures (View(), ok) == MatchBlank(old(View()), left, right)
    {
      if left in leftToRight {
        return leftToRight[left] == right;
      }
      if right in rightToLeft {
        return false;
      }
      leftToRight := leftToRight[left := right];
      rightToLeft := rightToLeft[right := left];
      return true;
    }

    method SubjectsMatch(left: Subject, right: Subject) returns (ok: bool)
      modifies this
      ensures (View(), ok) == MatchSubject(old(View()), left, right)
    {
      match (left, right)
      case (NamedSubject(a), NamedSubject(b)) => return a == b;
      case (BlankSubject(a), BlankSubject(b)) => ok := Matches(a, b);
      case _ => return false;
    }

    method TermsMatch(left: Term, right: Term) returns (ok: bool)
      modifies this
      ensures (View(), ok) == MatchTerm(old(View()), left, right)
      decreases left
    {
      match (left, right)
      case (NamedTerm(a), NamedTerm(b)) => return a == b;
      case (BlankTerm(a), BlankTerm(b)) => ok := Matches(a, b);
      case (LiteralTerm(a), LiteralTerm(b)) => return a == b;
      case (TripleTerm(s1, p1, o1), TripleTerm(s2, p2, o2)) =>
        ok := SubjectsMatch(s1, s2);
        if ok && p1 == p2 {
          ok := TermsMatch(o1, o2);
        } else {
          ok := false;
        }
      case _ => return false;
    }

    method SolutionsMatch(left: Solution, right: Solution) returns (ok: bool)
      modifies this
      ensures (View(), ok) == MatchSolution(old(View()), left, right)
    {
      if left.variables != right.variables || |left.values| != |right.values| {
        return false;
      }
      ghost var target := MatchValues(View(), left.values, right.values);
      var i := 0;
      assert left.values[0..] == left.values && right.values[0..] == right.values;
      while i < |left.values|
        invariant 0 <= i <= |left.values|
        invariant MatchValues(View(), left.values[i..], right.values[i..]) == target
      {
        assert left.values[i..][1..] == left.values[i + 1..] && right.values[i..][1..] == right.values[i + 1..];
        var l, r := left.values[i], right.values[i];
        if l.Some? && r.Some? {
          ok := TermsMatch(l.value, r.value);
          if !ok {
            return false;
          }
        } else if l.Some? || r.Some? {
          return false;
        }
        i := i + 1;
      }
      return true;
    }
  }

  /** `solution_sequences_match`: decides whether one injective renaming of blank nodes relates the two
      whole sequences. */
  method SolutionSequencesMatch(left: seq<Solution>, right: seq<Solution>) returns (ok: bool)
    ensures ok <==> Isomorphic(left, right)
  {
    hide Isomorphic;
    MatcherIsExact(left, right);
    if |left| != |right| {
      return false;
    }
    var bijection := new BlankNodeBijection();
    ghost var target := MatchSolutions(bijection.View(), left, right);
    var i := 0;
    assert left[0..] == left && right[0..] == right;
    while i < |left|
      invariant 0 <= i <= |left|
      invariant MatchSolutions(bijection.View(), left[i..], right[i..]) == target
    {
      assert left[i..][1..] == left[i + 1..] && right[i..][1..] == right[i + 1..];
      ok := bijection.SolutionsMatch(left[i], right[i]);
      if !ok {
        return false;
      }
      i := i + 1;
    }
    return true;
  }
}
