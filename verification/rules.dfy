/**
 * An ordered rule table with first-match semantics: the reference reading of
 * the scripts' `if`/`elif` classification chains. Each rule tests substring
 * containment; the first rule whose test holds decides the result, and a
 * default applies when none does.
 */
module Rules {
  import opened Text

  /** A branch condition: `a in s or b in s ...` (AnyOf) or `a in s and b in s ...` (AllOf). */
  datatype Test = AnyOf(needles: seq<string>) | AllOf(needles: seq<string>)

  datatype Rule<R> = Rule(test: Test, result: R)

  /** Python's `any(n in s for n in needles)`. */
  predicate AnyIn(s: string, needles: seq<string>)
    ensures AnyIn(s, needles) <==> exists k :: 0 <= k < |needles| && Contains(s, needles[k])
  {
    if needles == [] then false
    else Contains(s, needles[0]) || AnyIn(s, needles[1..])
  }

  /** `a in s or b in s`, where `b` contains `a`, tests `a` alone: the second needle is redundant. */
  lemma SecondNeedleRedundant(s: string, a: string, b: string)
    requires Contains(b, a)
    ensures AnyIn(s, [a, b]) <==> Contains(s, a)
  {
    if Contains(s, b) {
      ContainsTransitive(s, b, a);
    }
    assert [a, b][1..] == [b] && [b][1..] == [];
  }

  /** Python's `all(n in s for n in needles)`. */
  predicate AllIn(s: string, needles: seq<string>)
    ensures AllIn(s, needles) <==> forall k :: 0 <= k < |needles| ==> Contains(s, needles[k])
  {
    if needles == [] then true
    else Contains(s, needles[0]) && AllIn(s, needles[1..])
  }

  predicate Holds(t: Test, s: string) {
    match t
    case AnyOf(ns) => AnyIn(s, ns)
    case AllOf(ns) => AllIn(s, ns)
  }

  /** The index of the first rule at or after `i` whose test holds of `s`. */
  function FirstMatchFrom<R>(rules: seq<Rule<R>>, s: string, i: nat): (r: Option<nat>)
    decreases |rules| - i
    ensures r.Some? ==> i <= r.value < |rules| && Holds(rules[r.value].test, s)
    ensures r.Some? ==> forall j :: i <= j < r.value ==> !Holds(rules[j].test, s)
    ensures r.None? ==> forall j :: i <= j < |rules| ==> !Holds(rules[j].test, s)
  {
    if i >= |rules| then None
    else if Holds(rules[i].test, s) then Some(i)
    else FirstMatchFrom(rules, s, i + 1)
  }

  function FirstMatch<R>(rules: seq<Rule<R>>, s: string): Option<nat>
  {
    FirstMatchFrom(rules, s, 0)
  }

  /** The first-match result, or `default` when no rule's test holds. */
  function Lookup<R>(rules: seq<Rule<R>>, s: string, default: R): R
  {
    match FirstMatch(rules, s)
    case Some(i) => rules[i].result
    case None => default
  }

  /**
   * `earlier` holds of every string `later` holds of, for a reason that can be
   * read off the needles: `earlier` is an AnyOf and a needle of `later` (every
   * needle, when `later` is an AnyOf) contains one of its needles.
   */
  predicate Subsumes(earlier: Test, later: Test) {
    earlier.AnyOf? &&
    match later
    case AnyOf(ns) =>
      forall k :: 0 <= k < |ns| ==> AnyIn(ns[k], earlier.needles)
    case AllOf(ns) =>
      exists k :: 0 <= k < |ns| && AnyIn(ns[k], earlier.needles)
  }

  lemma SubsumedTestHolds(earlier: Test, later: Test, s: string)
    requires Subsumes(earlier, later) && Holds(later, s)
    ensures Holds(earlier, s)
  {
    var ns := later.needles;
    var k :| 0 <= k < |ns| && Contains(s, ns[k]) && AnyIn(ns[k], earlier.needles);
    var m :| 0 <= m < |earlier.needles| && Contains(ns[k], earlier.needles[m]);
    ContainsTransitive(s, ns[k], earlier.needles[m]);
  }

  /** A rule subsumed by an earlier rule is dead: it is never the first match, whatever the input. */
  lemma ShadowedRuleNeverFires<R>(rules: seq<Rule<R>>, j: nat, k: nat, s: string)
    requires j < k < |rules| && Subsumes(rules[j].test, rules[k].test)
    ensures FirstMatch(rules, s) != Some(k)
  {
    if FirstMatch(rules, s) == Some(k) {
      SubsumedTestHolds(rules[j].test, rules[k].test, s);
    }
  }
}
