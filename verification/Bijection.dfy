/** Comparing query solutions up to one global renaming of blank nodes: the greedy matcher, and what
    it decides. */
module Bijection {
  import opened Common

  type Name = string

  datatype Subject = NamedSubject(name: Name) | BlankSubject(blank: Name)

  datatype Term =
    | NamedTerm(name: Name)
    | BlankTerm(blank: Name)
    | LiteralTerm(literal: string)
    | TripleTerm(subject: Subject, verb: Name, target: Term)

  datatype Solution = Solution(variables: seq<Name>, values: seq<Option<Term>>)

  /** The matcher's two maps. */
  datatype State = State(leftToRight: map<Name, Name>, rightToLeft: map<Name, Name>)

  // ---- renaming, the reference notion ----

  ghost predicate Injective(m: map<Name, Name>) {
    forall x, y :: x in m && y in m && m[x] == m[y] ==> x == y
  }

  function RenameBlank(b: Name, m: map<Name, Name>): Name {
    if b in m then m[b] else b
  }

  function RenameSubject(s: Subject, m: map<Name, Name>): Subject {
    if s.BlankSubject? then BlankSubject(RenameBlank(s.blank, m)) else s
  }

  function RenameTerm(t: Term, m: map<Name, Name>): Term {
    match t
    case NamedTerm(_) => t
    case LiteralTerm(_) => t
    case BlankTerm(b) => BlankTerm(RenameBlank(b, m))
    case TripleTerm(s, p, o) => TripleTerm(RenameSubject(s, m), p, RenameTerm(o, m))
  }

  function RenameValues(vs: seq<Option<Term>>, m: map<Name, Name>): seq<Option<Term>> {
    seq(|vs|, i requires 0 <= i < |vs| => if vs[i].Some? then Some(RenameTerm(vs[i].value, m)) else None)
  }

  function RenameSolution(s: Solution, m: map<Name, Name>): Solution {
    Solution(s.variables, RenameValues(s.values, m))
  }

  function RenameSolutions(ss: seq<Solution>, m: map<Name, Name>): seq<Solution> {
    seq(|ss|, i requires 0 <= i < |ss| => RenameSolution(ss[i], m))
  }

  function BlanksOf(t: Term): set<Name> {
    match t
    case NamedTerm(_) => {}
    case LiteralTerm(_) => {}
    case BlankTerm(b) => {b}
    case TripleTerm(s, _, o) => (if s.BlankSubject? then {s.blank} else {}) + BlanksOf(o)
  }

  function ValueBlanks(v: Option<Term>): set<Name> {
    if v.Some? then BlanksOf(v.value) else {}
  }

  function ValuesBlanks(vs: seq<Option<Term>>): set<Name> {
    set i, b | 0 <= i < |vs| && b in ValueBlanks(vs[i]) :: b
  }

  function SolutionsBlanks(ss: seq<Solution>): set<Name> {
    set i, b | 0 <= i < |ss| && b in ValuesBlanks(ss[i].values) :: b
  }

  /** One injective renaming takes the left solutions to the right ones. */
  ghost predicate Isomorphic(left: seq<Solution>, right: seq<Solution>) {
    exists m: map<Name, Name> :: Renames(m, left, right)
  }

  ghost predicate Renames(m: map<Name, Name>, left: seq<Solution>, right: seq<Solution>) {
    Injective(m) && SolutionsBlanks(left) <= m.Keys && RenameSolutions(left, m) == right
  }

  // ---- the greedy matcher ----

  function MatchBlank(s: State, left: Name, right: Name): (State, bool) {
    if left in s.leftToRight then (s, s.leftToRight[left] == right)
    else if right in s.rightToLeft then (s, false)
    else (State(s.leftToRight[left := right], s.rightToLeft[right := left]), true)
  }

  function MatchSubject(s: State, left: Subject, right: Subject): (State, bool) {
    if left.NamedSubject? && right.NamedSubject? then (s, left.name == right.name)
    else if left.BlankSubject? && right.BlankSubject? then MatchBlank(s, left.blank, right.blank)
    else (s, false)
  }

  function MatchTerm(s: State, left: Term, right: Term): (State, bool)
    decreases left
  {
    match (left, right)
    case (NamedTerm(a), NamedTerm(b)) => (s, a == b)
    case (BlankTerm(a), BlankTerm(b)) => MatchBlank(s, a, b)
    case (LiteralTerm(a), LiteralTerm(b)) => (s, a == b)
    case (TripleTerm(s1, p1, o1), TripleTerm(s2, p2, o2)) =>
      var (t, ok) := MatchSubject(s, s1, s2);
      if ok && p1 == p2 then MatchTerm(t, o1, o2) else (t, false)
    case _ => (s, false)
  }

  function MatchValue(s: State, left: Option<Term>, right: Option<Term>): (State, bool) {
    if left.Some? && right.Some? then MatchTerm(s, left.value, right.value)
    else (s, left.None? && right.None?)
  }

  function MatchValues(s: State, left: seq<Option<Term>>, right: seq<Option<Term>>): (State, bool)
    requires |left| == |right|
    decreases |left|
  {
    if left == [] then (s, true)
    else
      var (t, ok) := MatchValue(s, left[0], right[0]);
      if ok then MatchValues(t, left[1..], right[1..]) else (t, false)
  }

  function MatchSolution(s: State, left: Solution, right: Solution): (State, bool) {
    if left.variables != right.variables || |left.values| != |right.values| then (s, false)
    else MatchValues(s, left.values, right.values)
  }

  function MatchSolutions(s: State, left: seq<Solution>, right: seq<Solution>): (State, bool)
    requires |left| == |right|
    decreases |left|
  {
    if left == [] then (s, true)
    else
      var (t, ok) := MatchSolution(s, left[0], right[0]);
      if ok then MatchSolutions(t, left[1..], right[1..]) else (t, false)
  }

  function SequencesMatch(left: seq<Solution>, right: seq<Solution>): bool {
    |left| == |right| && MatchSolutions(State(map[], map[]), left, right).1
  }

  // ---- the two maps stay inverse to each other ----

  ghost predicate Inverse(s: State) {
    && (forall l :: l in s.leftToRight ==> s.leftToRight[l] in s.rightToLeft && s.rightToLeft[s.leftToRight[l]] == l)
    && (forall r :: r in s.rightToLeft ==> s.rightToLeft[r] in s.leftToRight && s.leftToRight[s.rightToLeft[r]] == r)
  }

  ghost predicate Extends(m: map<Name, Name>, base: map<Name, Name>) {
    forall k :: k in base ==> k in m && m[k] == base[k]
  }

  lemma InverseIsInjective(s: State)
    requires Inverse(s)
    ensures Injective(s.leftToRight)
  {
  }

  /** What one successful match establishes, and what a fitting renaming guarantees. */
  ghost predicate Sound(s: State, t: State, ok: bool, blanks: set<Name>, renamed: bool) {
    Inverse(t) && Extends(t.leftToRight, s.leftToRight) && (ok ==> blanks <= t.leftToRight.Keys && renamed)
  }

  lemma BlankSound(s: State, left: Name, right: Name)
    requires Inverse(s)
    ensures var (t, ok) := MatchBlank(s, left, right);
      Sound(s, t, ok, {left}, RenameBlank(left, t.leftToRight) == right)
  {
  }

  lemma BlankComplete(s: State, left: Name, right: Name, m: map<Name, Name>)
    requires Inverse(s) && Injective(m) && Extends(m, s.leftToRight) && left in m && m[left] == right
    ensures var (t, ok) := MatchBlank(s, left, right); ok && Extends(m, t.leftToRight)
  {
  }

  lemma {:induction false} RenameStable(t: Term, m: map<Name, Name>, more: map<Name, Name>)
    requires BlanksOf(t) <= m.Keys && Extends(more, m)
    ensures RenameTerm(t, more) == RenameTerm(t, m)
  {
    match t
    case TripleTerm(_, _, o) => RenameStable(o, m, more);
    case _ =>
  }

  lemma {:induction false} TermSound(s: State, left: Term, right: Term)
    requires Inverse(s)
    ensures var (t, ok) := MatchTerm(s, left, right);
      Sound(s, t, ok, BlanksOf(left), RenameTerm(left, t.leftToRight) == right)
    decreases left
  {
    match (left, right)
    case (BlankTerm(a), BlankTerm(b)) => BlankSound(s, a, b);
    case (TripleTerm(s1, p1, o1), TripleTerm(s2, p2, o2)) =>
      if s1.BlankSubject? && s2.BlankSubject? {
        BlankSound(s, s1.blank, s2.blank);
      }
      var (t, ok) := MatchSubject(s, s1, s2);
      TermSound(t, o1, o2);
    case _ =>
  }

  lemma {:induction false} TermComplete(s: State, left: Term, right: Term, m: map<Name, Name>)
    requires Inverse(s) && Injective(m) && Extends(m, s.leftToRight) && BlanksOf(left) <= m.Keys
        && RenameTerm(left, m) == right
    ensures var (t, ok) := MatchTerm(s, left, right); ok && Extends(m, t.leftToRight)
    decreases left
  {
    match left
    case BlankTerm(a) => BlankComplete(s, a, right.blank, m);
    case TripleTerm(s1, _, o1) =>
      if s1.BlankSubject? {
        BlankComplete(s, s1.blank, right.subject.blank, m);
        BlankSound(s, s1.blank, right.subject.blank);
      }
      var (t, ok) := MatchSubject(s, s1, right.subject);
      TermComplete(t, o1, right.target, m);
    case _ =>
  }

  // ---- values ----

  lemma ValuesRenamedTail(vs: seq<Option<Term>>, m: map<Name, Name>)
    requires vs != []
    ensures RenameValues(vs, m)[1..] == RenameValues(vs[1..], m)
    ensures ValuesBlanks(vs) == ValueBlanks(vs[0]) + ValuesBlanks(vs[1..])
  {
    forall b | b in ValuesBlanks(vs) ensures b in ValueBlanks(vs[0]) + ValuesBlanks(vs[1..]) {
      var i :| 0 <= i < |vs| && b in ValueBlanks(vs[i]);
      if i > 0 {
        assert vs[1..][i - 1] == vs[i];
      }
    }
  }

  lemma {:induction false} ValuesSound(s: State, left: seq<Option<Term>>, right: seq<Option<Term>>)
    requires Inverse(s) && |left| == |right|
    ensures var (t, ok) := MatchValues(s, left, right);
      Sound(s, t, ok, ValuesBlanks(left), RenameValues(left, t.leftToRight) == right)
    decreases |left|
  {
    if left != [] {
      if left[0].Some? && right[0].Some? {
        TermSound(s, left[0].value, right[0].value);
      }
      var (t, ok) := MatchValue(s, left[0], right[0]);
      if ok {
        ValuesSound(t, left[1..], right[1..]);
        var (u, ok2) := MatchValues(t, left[1..], right[1..]);
        ValuesRenamedTail(left, u.leftToRight);
        if ok2 {
          if left[0].Some? {
            RenameStable(left[0].value, t.leftToRight, u.leftToRight);
          }
          assert RenameValues(left, u.leftToRight) == [right[0]] + right[1..] == right;
        }
      }
    }
  }

  lemma {:induction false} ValuesComplete(s: State, left: seq<Option<Term>>, right: seq<Option<Term>>,
      m: map<Name, Name>)
    requires Inverse(s) && Injective(m) && Extends(m, s.leftToRight)
    requires ValuesBlanks(left) <= m.Keys && RenameValues(left, m) == right
    ensures var (t, ok) := MatchValues(s, left, right); ok && Extends(m, t.leftToRight)
    decreases |left|
  {
    if left != [] {
      ValuesRenamedTail(left, m);
      assert right[0] == RenameValues(left, m)[0];
      if left[0].Some? {
        TermComplete(s, left[0].value, right[0].value, m);
        TermSound(s, left[0].value, right[0].value);
      }
      var (t, ok) := MatchValue(s, left[0], right[0]);
      ValuesComplete(t, left[1..], right[1..], m);
    }
  }

  lemma ValuesStable(vs: seq<Option<Term>>, m: map<Name, Name>, more: map<Name, Name>)
    requires ValuesBlanks(vs) <= m.Keys && Extends(more, m)
    ensures RenameValues(vs, more) == RenameValues(vs, m)
  {
    forall i | 0 <= i < |vs| ensures RenameValues(vs, more)[i] == RenameValues(vs, m)[i] {
      if vs[i].Some? {
        assert ValueBlanks(vs[i]) <= ValuesBlanks(vs);
        RenameStable(vs[i].value, m, more);
      }
    }
  }

  // ---- solutions ----

  lemma SolutionsRenamedTail(ss: seq<Solution>, m: map<Name, Name>)
    requires ss != []
    ensures RenameSolutions(ss, m)[1..] == RenameSolutions(ss[1..], m)
    ensures SolutionsBlanks(ss) == ValuesBlanks(ss[0].values) + SolutionsBlanks(ss[1..])
  {
    forall b | b in SolutionsBlanks(ss) ensures b in ValuesBlanks(ss[0].values) + SolutionsBlanks(ss[1..]) {
      var i :| 0 <= i < |ss| && b in ValuesBlanks(ss[i].values);
      if i > 0 {
        assert ss[1..][i - 1] == ss[i];
      }
    }
  }

  lemma {:induction false} SolutionsSound(s: State, left: seq<Solution>, right: seq<Solution>)
    requires Inverse(s) && |left| == |right|
    ensures var (t, ok) := MatchSolutions(s, left, right);
      Sound(s, t, ok, SolutionsBlanks(left), RenameSolutions(left, t.leftToRight) == right)
    decreases |left|
  {
    if left != [] {
      if |left[0].values| == |right[0].values| {
        ValuesSound(s, left[0].values, right[0].values);
      }
      var (t, ok) := MatchSolution(s, left[0], right[0]);
      if ok {
        SolutionsSound(t, left[1..], right[1..]);
        var (u, ok2) := MatchSolutions(t, left[1..], right[1..]);
        SolutionsRenamedTail(left, u.leftToRight);
        if ok2 {
          ValuesStable(left[0].values, t.leftToRight, u.leftToRight);
          assert RenameSolutions(left, u.leftToRight) == [right[0]] + right[1..] == right;
        }
      }
    }
  }

  lemma {:induction false} SolutionsComplete(s: State, left: seq<Solution>, right: seq<Solution>, m: map<Name, Name>)
    requires Inverse(s) && Injective(m) && Extends(m, s.leftToRight)
    requires SolutionsBlanks(left) <= m.Keys && RenameSolutions(left, m) == right
    ensures MatchSolutions(s, left, right).1
    decreases |left|
  {
    if left != [] {
      SolutionsRenamedTail(left, m);
      assert right[0] == RenameSolution(left[0], m);
      ValuesComplete(s, left[0].values, right[0].values, m);
      ValuesSound(s, left[0].values, right[0].values);
      var (t, ok) := MatchSolution(s, left[0], right[0]);
      SolutionsComplete(t, left[1..], right[1..], m);
    }
  }

  /** Exactness: the greedy matcher, which never backtracks, accepts exactly the pairs of sequences
      that one injective renaming relates, nested triple terms included. */
  lemma MatcherIsExact(left: seq<Solution>, right: seq<Solution>)
    ensures SequencesMatch(left, right) <==> Isomorphic(left, right)
  {
    var empty := State(map[], map[]);
    if SequencesMatch(left, right) {
      SolutionsSound(empty, left, right);
      var t := MatchSolutions(empty, left, right).0;
      InverseIsInjective(t);
      assert Renames(t.leftToRight, left, right);
    }
    if Isomorphic(left, right) {
      var m :| Renames(m, left, right);
      SolutionsComplete(empty, left, right, m);
    }
  }

  // ---- so it decides an equivalence ----

  lemma MatchesItself(ss: seq<Solution>)
    ensures SequencesMatch(ss, ss)
  {
    var id := map b | b in SolutionsBlanks(ss) :: b;
    forall i | 0 <= i < |ss| ensures RenameSolution(ss[i], id) == ss[i] {
      forall j | 0 <= j < |ss[i].values| && ss[i].values[j].Some?
        ensures RenameTerm(ss[i].values[j].value, id) == ss[i].values[j].value
      {
        RenameIdentity(ss[i].values[j].value, id);
      }
      assert RenameValues(ss[i].values, id) == ss[i].values;
    }
    assert RenameSolutions(ss, id) == ss;
    assert Renames(id, ss, ss);
    MatcherIsExact(ss, ss);
  }

  lemma {:induction false} RenameIdentity(t: Term, id: map<Name, Name>)
    requires forall b :: b in id ==> id[b] == b
    ensures RenameTerm(t, id) == t
  {
    if t.TripleTerm? {
      RenameIdentity(t.target, id);
    }
  }

  ghost function Converse(m: map<Name, Name>): map<Name, Name>
    requires Injective(m)
  {
    map r | r in m.Values :: var l :| l in m && m[l] == r; l
  }

  lemma ConverseUndoes(m: map<Name, Name>, l: Name)
    requires Injective(m) && l in m
    ensures m[l] in Converse(m) && Converse(m)[m[l]] == l
  {
  }

  lemma {:induction false} RenameBack(t: Term, m: map<Name, Name>)
    requires Injective(m) && BlanksOf(t) <= m.Keys
    ensures RenameTerm(RenameTerm(t, m), Converse(m)) == t
    ensures BlanksOf(RenameTerm(t, m)) <= Converse(m).Keys
  {
    match t
    case BlankTerm(b) => ConverseUndoes(m, b);
    case TripleTerm(s, _, o) =>
      if s.BlankSubject? {
        ConverseUndoes(m, s.blank);
      }
      RenameBack(o, m);
    case _ =>
  }

  lemma ValuesBack(vs: seq<Option<Term>>, m: map<Name, Name>)
    requires Injective(m) && ValuesBlanks(vs) <= m.Keys
    ensures RenameValues(RenameValues(vs, m), Converse(m)) == vs
    ensures ValuesBlanks(RenameValues(vs, m)) <= Converse(m).Keys
  {
    var renamed := RenameValues(vs, m);
    forall i | 0 <= i < |vs|
      ensures RenameValues(renamed, Converse(m))[i] == vs[i] && ValueBlanks(renamed[i]) <= Converse(m).Keys
    {
      if vs[i].Some? {
        assert ValueBlanks(vs[i]) <= ValuesBlanks(vs);
        RenameBack(vs[i].value, m);
      }
    }
  }

  /** The relation does not depend on which side is called left. */
  lemma MatchIsSymmetric(left: seq<Solution>, right: seq<Solution>)
    requires SequencesMatch(left, right)
    ensures SequencesMatch(right, left)
  {
    MatcherIsExact(left, right);
    var m :| Renames(m, left, right);
    var back := Converse(m);
    forall i | 0 <= i < |left|
      ensures RenameSolution(right[i], back) == left[i] && ValuesBlanks(right[i].values) <= back.Keys
    {
      assert ValuesBlanks(left[i].values) <= SolutionsBlanks(left);
      assert right[i] == RenameSolution(left[i], m);
      ValuesBack(left[i].values, m);
    }
    assert RenameSolutions(right, back) == left;
    assert Injective(back);
    assert Renames(back, right, left);
    MatcherIsExact(right, left);
  }
}
