/** internal/dnsname/scope.go: containment on label boundaries and the deepest match. */
module Scopes {
  import opened Text
  import opened Names
  import opened Seqs

  predicate IsSuffix<T(==)>(p: seq<T>, s: seq<T>) {
    |p| <= |s| && s[|s| - |p|..] == p
  }

  lemma SuffixesAreComparable<T>(p: seq<T>, q: seq<T>, s: seq<T>)
    requires IsSuffix(p, s) && IsSuffix(q, s) && |p| <= |q|
    ensures IsSuffix(p, q)
  {
    assert q[|q| - |p|..] == s[|s| - |q|..][|q| - |p|..] == s[|s| - |p|..];
  }

  /** Parent and child are compared label by label from the right; absent names match nothing. */
  predicate Contains(parent: Name, child: Name) {
    !IsZero(parent) && !IsZero(child) && IsSuffix(Labels(parent), Labels(child))
  }

  /** Two ancestors of one name are comparable: the one with no more labels contains the other. */
  lemma AncestorsAreComparable(a: Name, b: Name, child: Name)
    requires Contains(a, child) && Contains(b, child)
    requires CountLabel(a) <= CountLabel(b)
    ensures Contains(a, b)
  {
    SuffixesAreComparable(Labels(a), Labels(b), Labels(child));
  }

  /** Containment both ways is equality, so it orders the names. */
  lemma ContainsIsAntisymmetric(a: Name, b: Name)
    requires Contains(a, b) && Contains(b, a)
    ensures a == b
  {
    assert Labels(a) == Labels(b);
    LabelsDetermineName(a, b);
  }

  datatype Scope = Scope(domains: seq<Name>) {
    predicate IsEmpty() {
      domains == []
    }

    predicate Contains(name: Name) {
      LongestMatch(domains, name).Some?
    }
  }

  predicate Present(d: Name) {
    !IsZero(d)
  }

  method NewScope(domains: seq<Name>) returns (s: Scope)
    ensures s.domains == Filter(Present, domains)
    ensures forall d :: d in s.domains <==> d in domains && d.text != []
  {
    var kept: seq<Name> := [];
    for i := 0 to |domains|
      invariant kept == Filter(Present, domains[..i])
    {
      PrefixSnoc(domains, i);
      FilterSnoc(Present, domains[..i], domains[i]);
      if Present(domains[i]) {
        kept := kept + [domains[i]];
      }
    }
    PrefixAll(domains);
    FilterMembers(Present, domains);
    return Scope(kept);
  }

  /** d is a domain of the collection that contains the name, and none that does has more labels. */
  ghost predicate IsDeepest(domains: set<Name>, d: Name, name: Name) {
    && d in domains && Contains(d, name)
    && forall e <- domains :: Contains(e, name) ==> CountLabel(e) <= CountLabel(d)
  }

  function Deeper(best: Option<Name>, d: Name, name: Name): Option<Name> {
    if Contains(d, name) && (best.None? || CountLabel(d) > CountLabel(best.value)) then Some(d) else best
  }

  /** The match so far, updated by each later domain that has strictly more labels. */
  function LongestMatch(domains: seq<Name>, name: Name): Option<Name> {
    if domains == [] then None
    else Deeper(LongestMatch(domains[..|domains| - 1], name), domains[|domains| - 1], name)
  }

  ghost function Members(domains: seq<Name>): set<Name> {
    set d | d in domains
  }

  /** A match is the deepest of the domains; no match means that none contains the name. */
  ghost predicate IsMatch(domains: set<Name>, found: Option<Name>, name: Name) {
    if found.Some? then IsDeepest(domains, found.value, name) else forall d <- domains :: !Contains(d, name)
  }

  lemma OneMoreDomain(domains: set<Name>, best: Option<Name>, d: Name, name: Name)
    requires IsMatch(domains, best, name)
    ensures IsMatch(domains + {d}, Deeper(best, d, name), name)
  {
  }

  lemma {:induction false} LongestMatchIsMatch(domains: seq<Name>, name: Name)
    ensures IsMatch(Members(domains), LongestMatch(domains, name), name)
  {
    if domains != [] {
      var front, d := domains[..|domains| - 1], domains[|domains| - 1];
      assert domains == front + [d];
      LongestMatchIsMatch(front, name);
      OneMoreDomain(Members(front), LongestMatch(front, name), d, name);
      assert Members(domains) == Members(front) + {d};
    }
  }

  lemma LongestMatchFindsOne(domains: seq<Name>, name: Name)
    ensures LongestMatch(domains, name).None? <==> forall d <- domains :: !Contains(d, name)
    ensures LongestMatch(domains, name).Some? ==>
              IsDeepest(Members(domains), LongestMatch(domains, name).value, name)
  {
    LongestMatchIsMatch(domains, name);
    assert forall d :: d in Members(domains) <==> d in domains;
  }

  lemma DeepestIsUnique(domains: set<Name>, d: Name, e: Name, name: Name)
    requires IsDeepest(domains, d, name) && IsDeepest(domains, e, name)
    ensures d == e
  {
    AncestorsAreComparable(d, e, name);
    AncestorsAreComparable(e, d, name);
    ContainsIsAntisymmetric(d, e);
  }

  lemma MatchIsUnique(domains: set<Name>, a: Option<Name>, b: Option<Name>, name: Name)
    requires IsMatch(domains, a, name) && IsMatch(domains, b, name)
    ensures a == b
  {
    if a.Some? && b.Some? {
      DeepestIsUnique(domains, a.value, b.value, name);
    }
  }

  /**
   The match is the one deepest containing domain. The right side speaks of the set of domains,
   so order and repetition do not matter.
   */
  lemma LongestMatchIsDeepest(domains: seq<Name>, name: Name, d: Name)
    ensures LongestMatch(domains, name) == Some(d) <==> IsDeepest(Members(domains), d, name)
  {
    LongestMatchFindsOne(domains, name);
    if IsDeepest(Members(domains), d, name) {
      assert d in domains;
      DeepestIsUnique(Members(domains), d, LongestMatch(domains, name).value, name);
    }
  }

  /** The loop of the source, which keeps the best domain and its label count. */
  method FindLongestMatch(domains: seq<Name>, name: Name) returns (r: Option<Name>)
    ensures r == LongestMatch(domains, name)
  {
    if domains == [] || IsZero(name) {
      LongestMatchFindsOne(domains, name);
      return None;
    }
    var best := NO_NAME;
    var bestLabels: int := -1;
    for i := 0 to |domains|
      invariant bestLabels == -1 <==> LongestMatch(domains[..i], name).None?
      invariant bestLabels != -1 ==> LongestMatch(domains[..i], name) == Some(best) && bestLabels == CountLabel(best)
    {
      assert domains[..i + 1][..i] == domains[..i];
      var d := domains[i];
      if Contains(d, name) {
        var n := CountLabel(d);
        if n > bestLabels {
          best, bestLabels := d, n;
        }
      }
    }
    PrefixAll(domains);
    return if bestLabels < 0 then None else Some(best);
  }
}
