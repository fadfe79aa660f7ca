/** Filtering, as every keep-or-skip loop of the source does it. */
module Seqs {
  import opened Text

  /** One step of a loop over a sequence, and its end. */
  lemma PrefixSnoc<T>(s: seq<T>, i: nat)
    requires i < |s|
    ensures s[..i + 1] == s[..i] + [s[i]]
  {
  }

  lemma PrefixAll<T>(s: seq<T>)
    ensures s[..|s|] == s
  {
  }

  lemma HeadTail<T>(s: seq<T>)
    requires s != []
    ensures s == [s[0]] + s[1..]
  {
  }

  lemma ConcatAssociates<T>(a: seq<T>, b: seq<T>, c: seq<T>)
    ensures (a + b) + c == a + (b + c)
  {
  }

  lemma SnocInjective<T>(s: seq<T>, x: T, t: seq<T>, y: T)
    ensures s + [x] == t + [y] <==> s == t && x == y
  {
    if s + [x] == t + [y] {
      assert (s + [x])[|s|] == (t + [y])[|t|];
      assert s == (s + [x])[..|s|] == (t + [y])[..|t|];
    }
  }

  lemma UpdateTwice<K, V>(m: map<K, V>, k: K, a: V, b: V)
    ensures m[k := a][k := b] == m[k := b]
    ensures m[k := b].Keys == m.Keys + {k}
  {
  }

  lemma NothingOutside<T>(a: set<T>, b: set<T>)
    ensures a - b == {} <==> a <= b
  {
    if a - b == {} {
      forall x <- a ensures x in b {
        assert x !in a - b;
      }
    }
  }

  lemma NothingShared<T>(a: set<T>, b: set<T>)
    ensures a * b == {} <==> a !! b
  {
    if a * b == {} {
      forall x <- a ensures x !in b {
        assert x !in a * b;
      }
    }
  }

  function Filter<T>(keep: T -> bool, s: seq<T>): seq<T> {
    if s == [] then []
    else if keep(s[0]) then [s[0]] + Filter(keep, s[1..])
    else Filter(keep, s[1..])
  }

  lemma {:induction false} FilterConcat<T>(keep: T -> bool, a: seq<T>, b: seq<T>)
    ensures Filter(keep, a + b) == Filter(keep, a) + Filter(keep, b)
  {
    if a == [] {
      assert a + b == b;
    } else {
      assert (a + b)[1..] == a[1..] + b;
      FilterConcat(keep, a[1..], b);
    }
  }

  lemma FilterSnoc<T>(keep: T -> bool, s: seq<T>, x: T)
    ensures Filter(keep, s + [x]) == if keep(x) then Filter(keep, s) + [x] else Filter(keep, s)
  {
    FilterConcat(keep, s, [x]);
  }

  lemma FilterMembers<T>(keep: T -> bool, s: seq<T>)
    ensures forall x :: x in Filter(keep, s) <==> x in s && keep(x)
  {
  }

  lemma {:induction false} FilterNothing<T>(keep: T -> bool, s: seq<T>)
    requires forall x <- s :: !keep(x)
    ensures Filter(keep, s) == []
  {
    if s != [] {
      FilterNothing(keep, s[1..]);
    }
  }

  function Map<A, B>(f: A -> B, s: seq<A>): (r: seq<B>)
    ensures |r| == |s|
    ensures forall i | 0 <= i < |s| :: r[i] == f(s[i])
  {
    seq(|s|, i requires 0 <= i < |s| => f(s[i]))
  }

  lemma MapSnoc<A, B>(f: A -> B, s: seq<A>, x: A)
    ensures Map(f, s + [x]) == Map(f, s) + [f(x)]
  {
  }

  lemma MapParts<A, B>(f: A -> B, s: seq<A>, n: nat)
    requires n <= |s|
    ensures Map(f, s[..n]) == Map(f, s)[..n] && Map(f, s[n..]) == Map(f, s)[n..]
  {
  }

  /** All results, or nothing when one is missing. */
  function TryMap<A, B>(f: A -> Option<B>, s: seq<A>): (r: Option<seq<B>>)
    ensures r.Some? ==> |r.value| == |s|
  {
    if s == [] then Some([])
    else
      var front := TryMap(f, s[..|s| - 1]);
      var last := f(s[|s| - 1]);
      if front.Some? && last.Some? then Some(front.value + [last.value]) else None
  }

  lemma {:induction false} TryMapSucceedsIff<A, B>(f: A -> Option<B>, s: seq<A>)
    ensures TryMap(f, s).Some? <==> forall x <- s :: f(x).Some?
  {
    if s != [] {
      assert s == s[..|s| - 1] + [s[|s| - 1]];
      TryMapSucceedsIff(f, s[..|s| - 1]);
    }
  }

  lemma TryMapSnoc<A, B>(f: A -> Option<B>, s: seq<A>, x: A)
    ensures TryMap(f, s + [x]) ==
            if TryMap(f, s).Some? && f(x).Some? then Some(TryMap(f, s).value + [f(x).value]) else None
  {
    assert (s + [x])[..|s|] == s;
  }

  lemma {:induction false} TryMapFixed<A>(f: A -> Option<A>, s: seq<A>)
    requires TryMap(f, s).Some? && forall x <- s :: f(x).Some? ==> f(x) == Some(x)
    ensures TryMap(f, s) == Some(s)
  {
    if s != [] {
      assert s == s[..|s| - 1] + [s[|s| - 1]];
      TryMapFixed(f, s[..|s| - 1]);
    }
  }
}
