/** The order in which merge lets keys out, when it is applied to its own result. */
module KeyOrder {
  import opened Seqs
  import opened Overwrites
  import opened MergeLaws

  lemma {:induction false} FirstSeenConcat(base: set<Key>, a: seq<Key>, b: seq<Key>)
    ensures FirstSeen(base, a + b) == FirstSeen(base, a) + FirstSeen(base + Elems(a), b)
  {
    if b == [] {
      assert a + b == a;
    } else {
      hide FirstSeen;
      var front, k := b[..|b| - 1], b[|b| - 1];
      assert b == front + [k];
      FirstSeenConcat(base, a, front);
      ConcatAssociates(a, front, [k]);
      FirstSeenSnoc(base, a + front, k);
      FirstSeenSnoc(base + Elems(a), front, k);
      assert Elems(a + front) == Elems(a) + Elems(front);
    }
  }

  /** A larger base leaves out the keys it adds. */
  lemma {:induction false} FirstSeenOfMore(base: set<Key>, more: set<Key>, kept: set<Key>, ks: seq<Key>)
    requires forall k <- ks :: k in kept <==> k !in more
    ensures FirstSeen(base + more, ks) == Keep(kept, FirstSeen(base, ks))
  {
    if ks != [] {
      var front, k := ks[..|ks| - 1], ks[|ks| - 1];
      assert ks == front + [k];
      FirstSeenOfMore(base, more, kept, front);
      FirstSeenSnoc(base, front, k);
      FirstSeenSnoc(base + more, front, k);
      KeepSnoc(kept, FirstSeen(base, front), k);
    }
  }

  lemma KeepSnoc(kept: set<Key>, ks: seq<Key>, k: Key)
    ensures Keep(kept, ks + [k]) == if k in kept then Keep(kept, ks) + [k] else Keep(kept, ks)
  {
    assert (ks + [k])[..|ks|] == ks;
  }

  lemma {:induction false} KeepLengths(p: set<Key>, q: set<Key>, ks: seq<Key>)
    requires Elems(ks) <= p + q
    ensures |Keep(p, ks)| + |Keep(q, ks)| >= |ks|
    ensures |Keep(p, ks)| + |Keep(q, ks)| == |ks| ==> Elems(ks) * p * q == {}
  {
    if ks != [] {
      var front, k := ks[..|ks| - 1], ks[|ks| - 1];
      assert ks == front + [k];
      assert k in Elems(ks) && Elems(ks) == Elems(front) + {k};
      KeepLengths(p, q, front);
    }
  }

  predicate EndsIn(q: set<Key>, ks: seq<Key>) {
    forall i, j | 0 <= i < j < |ks| :: ks[i] in q ==> ks[j] in q
  }

  /** A list is its members of p, then those of q, if and only if the two do not overlap in it and q comes last. */
  lemma {:induction false} PartsInOrderIff(p: set<Key>, q: set<Key>, ks: seq<Key>)
    requires Elems(ks) <= p + q
    ensures ks == Keep(p, ks) + Keep(q, ks) <==> Elems(ks) * p * q == {} && EndsIn(q, ks)
  {
    KeepLengths(p, q, ks);
    KeepFacts(p, ks);
    KeepFacts(q, ks);
    if ks == Keep(p, ks) + Keep(q, ks) {
      PartsInOrderEnd(p, q, ks);
    }
    if Elems(ks) * p * q == {} && EndsIn(q, ks) {
      InOrderIsParts(p, q, ks);
    }
  }

  lemma {:induction false} PartsInOrderEnd(p: set<Key>, q: set<Key>, ks: seq<Key>)
    requires ks == Keep(p, ks) + Keep(q, ks) && Elems(ks) * p * q == {}
    ensures EndsIn(q, ks)
  {
    KeepFacts(p, ks);
    KeepFacts(q, ks);
    var n := |Keep(p, ks)|;
    forall x <- Keep(p, ks) ensures x !in q {
      assert x in Elems(Keep(p, ks)) && x !in Elems(ks) * p * q;
    }
    forall i, j | 0 <= i < j < |ks| && ks[i] in q ensures ks[j] in q {
      assert ks[j] == Keep(q, ks)[j - n];
      assert Keep(q, ks)[j - n] in Elems(Keep(q, ks));
    }
  }

  lemma {:induction false} InOrderIsParts(p: set<Key>, q: set<Key>, ks: seq<Key>)
    requires Elems(ks) <= p + q && Elems(ks) * p * q == {} && EndsIn(q, ks)
    ensures ks == Keep(p, ks) + Keep(q, ks)
  {
    if ks != [] {
      var front, k := ks[..|ks| - 1], ks[|ks| - 1];
      assert ks == front + [k];
      assert k in Elems(ks) && Elems(ks) == Elems(front) + {k};
      InOrderIsParts(p, q, front);
      if k in q {
        assert k !in Elems(ks) * p * q;
        ConcatAssociates(Keep(p, front), Keep(q, front), [k]);
      } else {
        KeepNothing(q, front) by {
          forall x <- front ensures x !in q {
            var i :| 0 <= i < |front| && front[i] == x;
            assert ks[i] == x;
          }
        }
      }
    }
  }

  lemma {:induction false} KeepNothing(kept: set<Key>, ks: seq<Key>)
    requires forall k <- ks :: k !in kept
    ensures Keep(kept, ks) == []
  {
    if ks != [] {
      KeepNothing(kept, ks[..|ks| - 1]);
    }
  }

  // ----- Letting keys out twice -----

  /** OutKeys on keys alone: published, deleted, written. */
  function Out(published: seq<Key>, deleted: set<Key>, written: seq<Key>): seq<Key> {
    Keep(Final(published, deleted, written), FirstSeen({}, published)) + Pushed(published, deleted, written)
  }

  function Final(published: seq<Key>, deleted: set<Key>, written: seq<Key>): set<Key> {
    (Elems(published) - deleted) + Elems(written)
  }

  /** The keys that are pushed behind the published ones. */
  function Pushed(published: seq<Key>, deleted: set<Key>, written: seq<Key>): seq<Key> {
    FirstSeen(Elems(published) - deleted, written)
  }

  lemma OutElems(published: seq<Key>, deleted: set<Key>, written: seq<Key>)
    ensures Elems(Out(published, deleted, written)) == Final(published, deleted, written)
  {
    var kept := Keep(Final(published, deleted, written), FirstSeen({}, published));
    var added := Pushed(published, deleted, written);
    FirstSeenFacts({}, published);
    KeepFacts(Final(published, deleted, written), FirstSeen({}, published));
    FirstSeenFacts(Elems(published) - deleted, written);
    assert Elems(kept + added) == Elems(kept) + Elems(added);
  }

  /** Every deleted and written key was published before, and is first written after all new keys. */
  predicate Repeats(published: seq<Key>, deleted: set<Key>, written: seq<Key>) {
    deleted * Elems(written) <= Elems(published) && EndsIn(deleted, Pushed(published, deleted, written))
  }

  lemma NothingRestoredRepeats(published: seq<Key>, deleted: set<Key>, written: seq<Key>)
    requires deleted !! Elems(written)
    ensures Repeats(published, deleted, written)
  {
    var added := Pushed(published, deleted, written);
    assert deleted * Elems(written) == {};
    FirstSeenFacts(Elems(published) - deleted, written);
    forall i | 0 <= i < |added| ensures added[i] !in deleted {
      assert added[i] in Elems(added);
    }
  }

  /** The second time, new keys keep their place and deleted ones are pushed again. */
  lemma OutAgain(published: seq<Key>, deleted: set<Key>, written: seq<Key>)
    ensures var final, added := Final(published, deleted, written), Pushed(published, deleted, written);
            Out(Out(published, deleted, written), deleted, written) ==
            Keep(final, FirstSeen({}, published)) + Keep(final - Elems(published), added) + Keep(deleted, added)
  {
    var final, out := Final(published, deleted, written), Out(published, deleted, written);
    var base := Elems(published) - deleted;
    OutElems(published, deleted, written);
    assert Final(out, deleted, written) == final;
    FirstSeenOfOut(published, deleted, written);
    FirstSeenFacts({}, out);
    KeepAll(final, FirstSeen({}, out));
    assert base + (final - deleted) == final - deleted;
    forall k <- written ensures k in deleted <==> k !in final - deleted {
      assert k in Elems(written);
    }
    FirstSeenOfMore(base, final - deleted, deleted, written);
  }

  lemma FirstSeenOfOut(published: seq<Key>, deleted: set<Key>, written: seq<Key>)
    ensures var final, added := Final(published, deleted, written), Pushed(published, deleted, written);
            FirstSeen({}, Out(published, deleted, written)) ==
            Keep(final, FirstSeen({}, published)) + Keep(final - Elems(published), added)
  {
    var final, added := Final(published, deleted, written), Pushed(published, deleted, written);
    var kept := Keep(final, FirstSeen({}, published));
    FirstSeenFacts({}, published);
    KeepFacts(final, FirstSeen({}, published));
    FirstSeenFacts(Elems(published) - deleted, written);
    FirstSeenConcat({}, kept, added);
    FirstSeenOfNew({}, kept);
    FirstSeenOfNew({}, added);
    forall k <- added ensures k in final - Elems(published) <==> k !in Elems(kept) {
      assert k in Elems(added);
    }
    FirstSeenOfMore({}, Elems(kept), final - Elems(published), added);
  }

  /** The same keys come out in the same order exactly when the deleted ones repeat. */
  lemma OutIsFixedIff(published: seq<Key>, deleted: set<Key>, written: seq<Key>)
    ensures Out(Out(published, deleted, written), deleted, written) == Out(published, deleted, written)
            <==> Repeats(published, deleted, written)
  {
    var final, added := Final(published, deleted, written), Pushed(published, deleted, written);
    var kept, anew := Keep(final, FirstSeen({}, published)), final - Elems(published);
    OutAgain(published, deleted, written);
    FirstSeenFacts(Elems(published) - deleted, written);
    PartsInOrderIff(anew, deleted, added);
    var lost := deleted * Elems(written) - Elems(published);
    assert Elems(added) * anew * deleted == lost;
    NothingOutside(deleted * Elems(written), Elems(published));
    ConcatAssociates(kept, Keep(anew, added), Keep(deleted, added));
    SamePrefix(kept, added, Keep(anew, added) + Keep(deleted, added));
  }

  lemma SamePrefix(a: seq<Key>, b: seq<Key>, c: seq<Key>)
    ensures a + b == a + c <==> b == c
  {
    if a + b == a + c {
      assert b == (a + b)[|a|..] == (a + c)[|a|..] == c;
    }
  }
}
