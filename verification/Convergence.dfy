/** Exactly when retries converge, world by world, and a run that does not. */
module Convergence {
  import opened Text
  import opened Names
  import opened Records
  import opened Seqs
  import opened Grouping
  import opened Overwrites
  import opened Merging
  import opened MergeLaws
  import opened EditLaws
  import opened Backends
  import opened RunLaws

  /** After any attempts, a success leaves what one undisturbed attempt would have left. */
  ghost predicate Converges(w: World, groups: seq<Group>) {
    forall attempts: seq<Attempt>, last: Attempt :: ConvergesAfter(w, groups, attempts, last)
  }

  predicate ConvergesAfter(w: World, groups: seq<Group>, attempts: seq<Attempt>, last: Attempt) {
    RunAttempt(RunAll(w, groups, attempts), groups, last).1.None? ==>
      RunAttempt(RunAll(w, groups, attempts), groups, last).0 == RunAttempt(w, groups, UNDISTURBED).0
  }

  predicate NoneEmpty(groups: seq<Group>) {
    forall i | 0 <= i < |groups| :: !groups[i].changes.IsEmpty()
  }

  function Outcome(w: World, groups: seq<Group>): World {
    ApplyGroups(w, groups, [], |groups|).0
  }

  /** The zone takes the change set again from where one success has left it. */
  lemma AcceptedAgain(w: World, after: World, g: Group)
    requires Accepts(w, g) && Got(after, g.zone.id) == Goal(w, g)
    ensures Accepts(after, g)
    ensures !Settles(w, g) ==> Goal(after, g) != Got(after, g.zone.id)
  {
    hide Repeatable, Merge;
    var current := Published(w, g.zone.id);
    if Edit(current, g.changes).Submitted? {
      SkippedAgainIff(current, g.changes);
      var es := Edit(current, g.changes).entries;
      assert Published(after, g.zone.id) == es;
      SubmittedIsNew(es, g.changes);
    } else {
      assert Published(after, g.zone.id) == current;
    }
  }

  lemma SubmittedIsNew(es: seq<Entry>, cs: ChangeSet)
    ensures Edit(es, cs).Submitted? ==> Edit(es, cs).entries != es
  {
    EditRefusesIff(es, cs);
  }

  /** A success can be repeated. */
  lemma {:induction false} SucceedsAgain(w: World, groups: seq<Group>)
    requires DistinctIds(groups) && NoneEmpty(groups)
    requires ApplyGroups(w, groups, [], |groups|).1.None?
    ensures ApplyGroups(Outcome(w, groups), groups, [], |groups|).1.None?
  {
    var k := UndisturbedFailsAtRefusal(Outcome(w, groups), groups, |groups|);
    if k < |groups| {
      AttemptReachesGoal(w, groups, [], k);
      AcceptedAgain(w, Outcome(w, groups), groups[k]);
    }
  }

  /** Two undisturbed successes leave something else than one when a group does not settle. */
  lemma {:induction false} SecondAttemptDiffers(w: World, groups: seq<Group>, k: nat)
    requires DistinctIds(groups) && NoneEmpty(groups) && k < |groups|
    requires ApplyGroups(w, groups, [], |groups|).1.None? && !Settles(w, groups[k])
    ensures !ConvergesAfter(w, groups, [UNDISTURBED], UNDISTURBED)
  {
    hide Edit, Repeatable;
    var after := Outcome(w, groups);
    AttemptReachesGoal(w, groups, [], k);
    AcceptedAgain(w, after, groups[k]);
    SucceedsAgain(w, groups);
    AttemptReachesGoal(after, groups, [], k);
    assert RunAll(w, groups, [UNDISTURBED]) == after by {
      assert [UNDISTURBED][..0] == [];
    }
  }

  lemma SoundGroupsConverge(w: World, groups: seq<Group>, attempts: seq<Attempt>, last: Attempt)
    requires Sound(w, groups)
    ensures ConvergesAfter(w, groups, attempts, last)
  {
    if RunAttempt(RunAll(w, groups, attempts), groups, last).1.None? {
      RetriesConverge(w, groups, attempts, last);
    }
  }

  /** A group that its zone refuses keeps every attempt from succeeding. */
  lemma {:induction false} SuccessMeansAccepted(w: World, groups: seq<Group>, attempts: seq<Attempt>,
                                                last: Attempt, k: nat)
    requires DistinctIds(groups) && NoneEmpty(groups) && k < |groups|
    ensures RunAttempt(RunAll(w, groups, attempts), groups, last).1.None? ==> Accepts(w, groups[k])
  {
    hide Edit, ApplyGroups;
    if RunAttempt(RunAll(w, groups, attempts), groups, last).1.None? && !Accepts(w, groups[k]) {
      RunStaysOnTheWay(w, groups, attempts, k);
      SuccessReachesGoal(w, RunAll(w, groups, attempts), groups, last.fates, k);
    }
  }

  predicate AllAccepted(w: World, groups: seq<Group>) {
    forall k | 0 <= k < |groups| :: Accepts(w, groups[k])
  }

  predicate AllSettle(w: World, groups: seq<Group>) {
    forall k | 0 <= k < |groups| :: Settles(w, groups[k])
  }

  /**
   In every world, retries converge if and only if some zone refuses its group, so that nothing ever succeeds,
   or every group settles in its zone.
   */
  lemma {:induction false} ConvergesIff(w: World, groups: seq<Group>)
    requires DistinctIds(groups) && NoneEmpty(groups)
    ensures Converges(w, groups) <==> !AllAccepted(w, groups) || AllSettle(w, groups)
  {
    hide Edit, ApplyGroups;
    if !AllAccepted(w, groups) {
      var k :| 0 <= k < |groups| && !Accepts(w, groups[k]);
      forall attempts: seq<Attempt>, last: Attempt ensures ConvergesAfter(w, groups, attempts, last) {
        SuccessMeansAccepted(w, groups, attempts, last, k);
      }
    } else if AllSettle(w, groups) {
      forall attempts: seq<Attempt>, last: Attempt ensures ConvergesAfter(w, groups, attempts, last) {
        SoundGroupsConverge(w, groups, attempts, last);
      }
    } else {
      var k :| 0 <= k < |groups| && !Settles(w, groups[k]);
      var _ := UndisturbedFailsAtRefusal(w, groups, |groups|);
      SecondAttemptDiffers(w, groups, k);
    }
  }

  // ----- The condition in terms of what is published -----

  /** What can be seen before the call: the change set converts, and the surviving names are spelled canonically. */
  predicate Acceptable(w: World, g: Group) {
    Convertible(g.changes) && SurvivorsSpelledCanonically(Published(w, g.zone.id), g.changes)
  }

  predicate DistinctlyPublished(w: World, groups: seq<Group>) {
    forall k | 0 <= k < |groups| :: Distinct(Keys(Published(w, groups[k].zone.id)))
  }

  /** With distinct keys a zone that skips the change set publishes everything it writes and deletes none of it. */
  lemma SkippedDeletesNoWrite(current: seq<Entry>, cs: ChangeSet)
    requires Edit(current, cs) == Skipped && Distinct(Keys(current))
    ensures DeletesNoWrite(cs)
  {
    EditRefusesIff(current, cs);
    SkippedIff(current, cs);
    SubmittedSetMeetsSpecification(current, cs);
    WithLabelsKeepsKeys(current);
    assert OutKeys(current, cs) == Keys(current);
    OutKeysAreFinalKeys(current, cs);
    OutKeysDistinctIff(current, cs);
    NothingShared(DeleteKeys(cs), Elems(WriteKeys(cs.Writes())));
    assert Restored(cs) == Elems(Keys(current)) * DeleteKeys(cs) * Elems(WriteKeys(cs.Writes()));
  }

  lemma SettlesIffRepeatable(w: World, g: Group)
    requires Accepts(w, g) && Distinct(Keys(Published(w, g.zone.id)))
    ensures Settles(w, g) <==> Repeatable(Published(w, g.zone.id), g.changes)
  {
    hide Repeatable;
    var current := Published(w, g.zone.id);
    if !Edit(current, g.changes).Submitted? {
      SkippedDeletesNoWrite(current, g.changes);
      DeletesNoWriteIsRepeatable(current, g.changes);
    }
  }

  predicate AllAcceptable(w: World, groups: seq<Group>) {
    forall k | 0 <= k < |groups| :: Acceptable(w, groups[k])
  }

  predicate AllRepeatable(w: World, groups: seq<Group>) {
    forall k | 0 <= k < |groups| :: Repeatable(Published(w, groups[k].zone.id), groups[k].changes)
  }

  /**
   Over zones with distinct keys, retries converge if and only if some zone cannot accept its group, or every
   group has its deleted and written keys published and first written after the new ones.
   */
  lemma {:induction false} ConvergesIffRepeatable(w: World, groups: seq<Group>)
    requires DistinctIds(groups) && NoneEmpty(groups) && DistinctlyPublished(w, groups)
    ensures Converges(w, groups) <==> !AllAcceptable(w, groups) || AllRepeatable(w, groups)
  {
    hide Edit, ApplyGroups, Repeatable, Settles;
    ConvergesIff(w, groups);
    forall k | 0 <= k < |groups| ensures Accepts(w, groups[k]) <==> Acceptable(w, groups[k]) {
      EditRefusesIff(Published(w, groups[k].zone.id), groups[k].changes);
    }
    if AllAcceptable(w, groups) {
      forall k | 0 <= k < |groups|
        ensures Settles(w, groups[k]) <==> Repeatable(Published(w, groups[k].zone.id), groups[k].changes)
      {
        SettlesIffRepeatable(w, groups[k]);
      }
    }
  }

  /** Where the keys in question are not published yet, that is: or no group deletes a key it writes. */
  lemma {:induction false} ConvergesIffNothingRestored(w: World, groups: seq<Group>)
    requires DistinctIds(groups) && NoneEmpty(groups)
    requires forall k | 0 <= k < |groups| :: Restored(groups[k].changes) !! Elems(Keys(Published(w, groups[k].zone.id)))
    ensures Converges(w, groups) <==>
              !AllAccepted(w, groups) || forall k | 0 <= k < |groups| :: DeletesNoWrite(groups[k].changes)
  {
    hide Edit, ApplyGroups, Settles;
    ConvergesIff(w, groups);
    if AllAccepted(w, groups) {
      forall k | 0 <= k < |groups| ensures Settles(w, groups[k]) <==> DeletesNoWrite(groups[k].changes) {
        SettlesIffNothingRestored(w, groups[k]);
      }
    }
  }

  lemma SettlesIffNothingRestored(w: World, g: Group)
    requires Accepts(w, g) && Restored(g.changes) !! Elems(Keys(Published(w, g.zone.id)))
    ensures Settles(w, g) <==> DeletesNoWrite(g.changes)
  {
    var current := Published(w, g.zone.id);
    RepeatableIffNothingRestored(current, g.changes);
    if !DeletesNoWrite(g.changes) {
      UnpublishedWriteIsSubmitted(current, g.changes);
    }
  }

  /** A zone that accepts a key it did not publish is not skipped. */
  lemma UnpublishedWriteIsSubmitted(current: seq<Entry>, cs: ChangeSet)
    requires !Edit(current, cs).Refused? && !(Elems(WriteKeys(cs.Writes())) <= Elems(Keys(current)))
    ensures Edit(current, cs).Submitted?
  {
    EditRefusesIff(current, cs);
    SkippedIff(current, cs);
    OutKeysAreFinalKeys(current, cs);
    SubmittedSetMeetsSpecification(current, cs);
    WithLabelsKeepsKeys(current);
  }

  lemma WithLabelsKeepsKeys(es: seq<Entry>)
    ensures Keys(Map(WithLabels, es)) == Keys(es)
  {
  }

  // ----- A run that does not converge -----

  /** Deleting a record and creating it again at once, in a zone that does not have it. */
  function Replacement(r: Record): ChangeSet {
    ChangeSet([r], [], [r])
  }

  lemma ReplacementIsSentTwice(current: seq<Entry>, r: Record)
    requires Writable(r) && RecordKey(r) !in Keys(current)
    requires SurvivorsSpelledCanonically(current, Replacement(r))
    ensures Edit(current, Replacement(r)).Submitted?
    ensures Edit(Edit(current, Replacement(r)).entries, Replacement(r)).Submitted?
  {
    hide Edit;
    var cs, k := Replacement(r), RecordKey(r);
    ReplacementKeys(r);
    EditRefusesIff(current, cs);
    assert k !in Elems(Keys(current));
    UnpublishedWriteIsSubmitted(current, cs);
    DeletedWriteIsNotSkipped(current, cs, k);
  }

  lemma ReplacementKeys(r: Record)
    requires Writable(r)
    ensures Convertible(Replacement(r)) && RecordKey(r) in Restored(Replacement(r))
    ensures Elems(WriteKeys(Replacement(r).Writes())) == {RecordKey(r)} == DeleteKeys(Replacement(r))
  {
    var cs := Replacement(r);
    assert cs.Writes() == [r];
    assert WriteKeys([r]) == [RecordKey(r)];
  }

  /** The same in a world of one zone: the second success leaves the record twice. */
  lemma ReplacementDiverges(zone: Zone, current: seq<Entry>, r: Record)
    requires Writable(r) && RecordKey(r) !in Keys(current)
    requires SurvivorsSpelledCanonically(current, Replacement(r))
    ensures var w: World, groups := map[zone.id := current], [Group(zone, Replacement(r))];
            !ConvergesAfter(w, groups, [UNDISTURBED], UNDISTURBED)
  {
    hide Edit;
    var w: World, groups := map[zone.id := current], [Group(zone, Replacement(r))];
    var g := groups[0];
    assert Published(w, g.zone.id) == current;
    ReplacementIsSentTwice(current, r);
    SkippedAgainIff(current, g.changes);
    var _ := UndisturbedFailsAtRefusal(w, groups, |groups|);
    SecondAttemptDiffers(w, groups, 0);
  }

  /** For example a zone that publishes the SOA record of a. and is sent the record A of b. in both lists. */
  lemma RetryOfReplacementDiverges() returns (zone: Zone, soa: Entry, r: Record)
    ensures zone.name.text == "a." && zone.id == "1" && soa == Overwrite("a.", SOA, None, [], [], Some(map[]))
    ensures r.name.text == "b." && r == Record(r.name, A, 300, ["192.0.2.1"])
    ensures !ConvergesAfter(map[zone.id := [soa]], [Group(zone, Replacement(r))], [UNDISTURBED], UNDISTURBED)
  {
    var a := SmallName('a');
    var b := SmallName('b');
    zone := Zone(a, "1");
    soa := Overwrite(a.text, SOA, None, [], [], Some(map[]));
    r := Record(b, A, 300, ["192.0.2.1"]);
    NameIsCanonical(a);
    assert KeyOf(soa) == Key(a.text, SOA);
    assert Keys([soa]) == [Key(a.text, SOA)];
    OneRecordSurvivesCanonically(soa, Replacement(r));
    ReplacementDiverges(zone, [soa], r);
  }

  lemma OneRecordSurvivesCanonically(e: Entry, cs: ChangeSet)
    requires KeyOf(e).name == e.name
    ensures SurvivorsSpelledCanonically([e], cs)
  {
    assert Keys([e]) == [KeyOf(e)];
    assert LastWith([e], KeyOf(e)) == Some(e);
  }
}
