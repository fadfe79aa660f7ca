/** Whole runs: attempts that fail anywhere, repeated until one succeeds. */
module RunLaws {
  import opened Text
  import opened Names
  import opened Records
  import Seqs
  import opened Zones
  import opened Grouping
  import opened GroupingLaws
  import opened Overwrites
  import opened Merging
  import opened MergeLaws
  import opened EditLaws
  import opened Backends

  /** The world after any number of attempts, successful or not. */
  function RunAll(w: World, groups: seq<Group>, attempts: seq<Attempt>): World {
    if attempts == [] then w
    else RunAttempt(RunAll(w, groups, attempts[..|attempts| - 1]), groups, attempts[|attempts| - 1]).0
  }

  /** Attempt after attempt: each call of ApplyChanges takes the world one step further. */
  lemma OneMoreAttempt(w: World, groups: seq<Group>, attempts: seq<Attempt>, a: Attempt)
    ensures RunAll(w, groups, attempts + [a]) == RunAttempt(RunAll(w, groups, attempts), groups, a).0
  {
    assert (attempts + [a])[..|attempts|] == attempts;
  }

  function Got(w: World, id: Text): Option<seq<Entry>> {
    if id in w then Some(w[id]) else None
  }

  predicate DistinctIds(groups: seq<Group>) {
    forall i, j | 0 <= i < j < |groups| :: groups[i].zone.id != groups[j].zone.id
  }

  predicate Touches(groups: seq<Group>, id: Text) {
    exists g <- groups :: g.zone.id == id
  }

  // ----- Zones that own nothing -----

  lemma ApplyZoneElsewhere(w: World, zone: Zone, cs: ChangeSet, fate: Fate, id: Text)
    requires id != zone.id
    ensures Got(ApplyZone(w, zone, cs, fate).0, id) == Got(w, id)
  {
  }

  /** One more group leaves every other zone alone and repairs no failure. */
  lemma NextGroupElsewhere(w: World, groups: seq<Group>, fates: seq<Fate>, n: nat, id: Text)
    requires n < |groups| && groups[n].zone.id != id
    ensures Got(ApplyGroups(w, groups, fates, n + 1).0, id) == Got(ApplyGroups(w, groups, fates, n).0, id)
    ensures ApplyGroups(w, groups, fates, n).1.Some? ==> ApplyGroups(w, groups, fates, n + 1).1.Some?
  {
    hide Edit;
    ApplyZoneElsewhere(ApplyGroups(w, groups, fates, n).0, groups[n].zone, groups[n].changes, FateAt(fates, n), id);
  }

  lemma {:induction false} ApplyGroupsElsewhere(w: World, groups: seq<Group>, fates: seq<Fate>, n: nat, id: Text)
    requires n <= |groups| && forall i | 0 <= i < n :: groups[i].zone.id != id
    ensures Got(ApplyGroups(w, groups, fates, n).0, id) == Got(w, id)
  {
    hide Edit;
    if n == 0 {
      assert ApplyGroups(w, groups, fates, 0) == (w, None);
    } else {
      var m := n - 1;
      ApplyGroupsElsewhere(w, groups, fates, m, id);
      NextGroupElsewhere(w, groups, fates, m, id);
    }
  }

  /** However many attempts are made and however they end, a zone without a group is never touched. */
  lemma {:induction false} OtherZonesUntouched(w: World, groups: seq<Group>, attempts: seq<Attempt>, id: Text)
    requires !Touches(groups, id)
    ensures Got(RunAll(w, groups, attempts), id) == Got(w, id)
  {
    hide Edit;
    if attempts != [] {
      OtherZonesUntouched(w, groups, attempts[..|attempts| - 1], id);
      var a := attempts[|attempts| - 1];
      if a.Reach? {
        ApplyGroupsElsewhere(RunAll(w, groups, attempts[..|attempts| - 1]), groups, a.fates, |groups|, id);
      }
    }
  }

  // ----- One zone over a run -----

  /** What one undisturbed application leaves in the zone. */
  function Goal(w: World, g: Group): Option<seq<Entry>> {
    match Edit(Published(w, g.zone.id), g.changes)
    case Submitted(es) => Some(es)
    case _ => Got(w, g.zone.id)
  }

  /** The zone is as it was, or it has reached its goal. */
  predicate OnTheWay(w0: World, w: World, g: Group) {
    Got(w, g.zone.id) == Got(w0, g.zone.id) || Got(w, g.zone.id) == Goal(w0, g)
  }

  predicate Accepts(w: World, g: Group) {
    !Edit(Published(w, g.zone.id), g.changes).Refused?
  }

  /** What the group submits to the zone is skipped when it is submitted again. */
  predicate Settles(w: World, g: Group) {
    Edit(Published(w, g.zone.id), g.changes).Submitted? ==> Repeatable(Published(w, g.zone.id), g.changes)
  }

  /** Reaching the goal once means staying there. */
  lemma StepStaysOnTheWay(w0: World, w: World, g: Group, fate: Fate)
    requires Settles(w0, g) && OnTheWay(w0, w, g)
    ensures OnTheWay(w0, ApplyZone(w, g.zone, g.changes, fate).0, g)
    ensures ApplyZone(w, g.zone, g.changes, fate).1.None? && !g.changes.IsEmpty() ==>
              Accepts(w0, g) && Got(ApplyZone(w, g.zone, g.changes, fate).0, g.zone.id) == Goal(w0, g)
  {
    hide Merge;
    if Edit(Published(w0, g.zone.id), g.changes).Submitted? {
      SkippedAgainIff(Published(w0, g.zone.id), g.changes);
    }
  }

  /** One more group, seen by group k. */
  lemma NextGroupStaysOnTheWay(w0: World, w: World, groups: seq<Group>, fates: seq<Fate>, n: nat, k: nat)
    requires DistinctIds(groups) && k < |groups| && n < |groups|
    requires Settles(w0, groups[k]) && OnTheWay(w0, ApplyGroups(w, groups, fates, n).0, groups[k])
    ensures OnTheWay(w0, ApplyGroups(w, groups, fates, n + 1).0, groups[k])
  {
    hide Edit;
    if k == n {
      StepStaysOnTheWay(w0, ApplyGroups(w, groups, fates, n).0, groups[k], FateAt(fates, n));
    } else {
      NextGroupElsewhere(w, groups, fates, n, groups[k].zone.id);
    }
  }

  lemma {:induction false} GroupsStayOnTheWay(w0: World, w: World, groups: seq<Group>, fates: seq<Fate>, n: nat, k: nat)
    requires DistinctIds(groups) && k < |groups| && n <= |groups|
    requires Settles(w0, groups[k]) && OnTheWay(w0, w, groups[k])
    ensures OnTheWay(w0, ApplyGroups(w, groups, fates, n).0, groups[k])
  {
    hide Edit;
    if n == 0 {
      assert ApplyGroups(w, groups, fates, 0) == (w, None);
    } else {
      var m := n - 1;
      GroupsStayOnTheWay(w0, w, groups, fates, m, k);
      NextGroupStaysOnTheWay(w0, w, groups, fates, m, k);
    }
  }

  lemma {:induction false} RunStaysOnTheWay(w0: World, groups: seq<Group>, attempts: seq<Attempt>, k: nat)
    requires DistinctIds(groups) && k < |groups| && Settles(w0, groups[k])
    ensures OnTheWay(w0, RunAll(w0, groups, attempts), groups[k])
  {
    hide Edit;
    if attempts != [] {
      var front, a := attempts[..|attempts| - 1], attempts[|attempts| - 1];
      RunStaysOnTheWay(w0, groups, front, k);
      if a.Reach? {
        GroupsStayOnTheWay(w0, RunAll(w0, groups, front), groups, a.fates, |groups|, k);
      }
    }
  }

  // ----- Convergence -----

  predicate RefusedBefore(w: World, groups: seq<Group>, n: nat, k: nat)
    requires n <= |groups|
  {
    k < n && !Accepts(w, groups[k])
  }

  /** An undisturbed attempt fails only at a group that the original zones refuse. */
  lemma {:induction false} UndisturbedFailsAtRefusal(w0: World, groups: seq<Group>, n: nat) returns (k: nat)
    requires DistinctIds(groups) && n <= |groups|
    ensures ApplyGroups(w0, groups, [], n).1.None? || RefusedBefore(w0, groups, n, k)
  {
    hide Edit;
    k := 0;
    if n == 0 {
      assert ApplyGroups(w0, groups, [], 0) == (w0, None);
    } else {
      k := UndisturbedFailsAtRefusal(w0, groups, n - 1);
      if !RefusedBefore(w0, groups, n - 1, k) {
        k := n - 1;
        UndisturbedStep(w0, groups, k);
      }
    }
  }

  lemma UndisturbedStep(w0: World, groups: seq<Group>, n: nat)
    requires DistinctIds(groups) && n < |groups|
    requires ApplyGroups(w0, groups, [], n).1.None?
    ensures Accepts(w0, groups[n]) ==> ApplyGroups(w0, groups, [], n + 1).1.None?
  {
    hide Edit;
    ApplyGroupsElsewhere(w0, groups, [], n, groups[n].zone.id);
    if Accepts(w0, groups[n]) {
      AcceptedZoneSucceeds(w0, ApplyGroups(w0, groups, [], n).0, groups[n]);
    }
  }

  lemma AcceptedZoneSucceeds(w0: World, w: World, g: Group)
    requires Accepts(w0, g) && Got(w, g.zone.id) == Got(w0, g.zone.id)
    ensures ApplyZone(w, g.zone, g.changes, Works).1.None?
  {
    assert Published(w, g.zone.id) == Published(w0, g.zone.id);
  }

  lemma SameEverywhere(a: World, b: World)
    requires forall id :: Got(a, id) == Got(b, id)
    ensures a == b
  {
    forall id ensures id in a <==> id in b {
      assert Got(a, id) == Got(b, id);
    }
    forall id | id in a ensures a[id] == b[id] {
      assert Got(a, id) == Got(b, id);
    }
  }

  /** No group is empty and each settles in its zone. */
  predicate Sound(w: World, groups: seq<Group>) {
    DistinctIds(groups) && forall k | 0 <= k < |groups| :: Settles(w, groups[k]) && !groups[k].changes.IsEmpty()
  }

  /** The groups after a group leave its zone alone. */
  lemma {:induction false} LaterGroupsElsewhere(w: World, groups: seq<Group>, fates: seq<Fate>, n: nat, k: nat)
    requires DistinctIds(groups) && k < n <= |groups|
    ensures ApplyGroups(w, groups, fates, n).1.None? ==>
              && ApplyGroups(w, groups, fates, k + 1).1.None?
              && Got(ApplyGroups(w, groups, fates, n).0, groups[k].zone.id)
                 == Got(ApplyGroups(w, groups, fates, k + 1).0, groups[k].zone.id)
  {
    hide Edit;
    if k + 1 < n {
      var m := n - 1;
      LaterGroupsElsewhere(w, groups, fates, m, k);
      NextGroupElsewhere(w, groups, fates, m, groups[k].zone.id);
    }
  }

  lemma {:induction false} SuccessReachesGoal(w0: World, w: World, groups: seq<Group>, fates: seq<Fate>, k: nat)
    requires DistinctIds(groups) && k < |groups| && !groups[k].changes.IsEmpty()
    requires Settles(w0, groups[k]) && OnTheWay(w0, w, groups[k])
    requires ApplyGroups(w, groups, fates, |groups|).1.None?
    ensures Accepts(w0, groups[k])
    ensures Got(ApplyGroups(w, groups, fates, |groups|).0, groups[k].zone.id) == Goal(w0, groups[k])
  {
    hide Edit;
    LaterGroupsElsewhere(w, groups, fates, |groups|, k);
    GroupsStayOnTheWay(w0, w, groups, fates, k, k);
    StepStaysOnTheWay(w0, ApplyGroups(w, groups, fates, k).0, groups[k], FateAt(fates, k));
  }

  /** In a single successful attempt every group is accepted and reaches its goal, whether or not it settles. */
  lemma {:induction false} AttemptReachesGoal(w: World, groups: seq<Group>, fates: seq<Fate>, k: nat)
    requires DistinctIds(groups) && k < |groups| && !groups[k].changes.IsEmpty()
    ensures ApplyGroups(w, groups, fates, |groups|).1.None? ==>
              Accepts(w, groups[k]) &&
              Got(ApplyGroups(w, groups, fates, |groups|).0, groups[k].zone.id) == Goal(w, groups[k])
  {
    hide Edit;
    LaterGroupsElsewhere(w, groups, fates, |groups|, k);
    ApplyGroupsElsewhere(w, groups, fates, k, groups[k].zone.id);
    ZoneReachesGoal(w, ApplyGroups(w, groups, fates, k).0, groups[k], FateAt(fates, k));
  }

  lemma ZoneReachesGoal(w0: World, w: World, g: Group, fate: Fate)
    requires Got(w, g.zone.id) == Got(w0, g.zone.id) && !g.changes.IsEmpty()
    ensures ApplyZone(w, g.zone, g.changes, fate).1.None? ==>
              Accepts(w0, g) && Got(ApplyZone(w, g.zone, g.changes, fate).0, g.zone.id) == Goal(w0, g)
  {
    assert Published(w, g.zone.id) == Published(w0, g.zone.id);
  }

  /**
   After any attempts whatever, one attempt that reports success leaves every zone
   as a single undisturbed attempt on the original zones would have, and that one would have succeeded.
   */
  lemma {:induction false} RetriesConverge(w0: World, groups: seq<Group>, attempts: seq<Attempt>, last: Attempt)
    requires Sound(w0, groups)
    requires RunAttempt(RunAll(w0, groups, attempts), groups, last).1.None?
    ensures RunAttempt(w0, groups, UNDISTURBED).1.None?
    ensures RunAttempt(RunAll(w0, groups, attempts), groups, last).0 == RunAttempt(w0, groups, UNDISTURBED).0
  {
    hide Edit;
    var w := RunAll(w0, groups, attempts);
    var after := ApplyGroups(w, groups, last.fates, |groups|).0;
    forall k | 0 <= k < |groups|
      ensures Accepts(w0, groups[k]) && Got(after, groups[k].zone.id) == Goal(w0, groups[k])
    {
      RunStaysOnTheWay(w0, groups, attempts, k);
      SuccessReachesGoal(w0, w, groups, last.fates, k);
    }
    var _ := UndisturbedFailsAtRefusal(w0, groups, |groups|);
    var single := ApplyGroups(w0, groups, [], |groups|).0;
    forall id ensures Got(after, id) == Got(single, id) {
      if Touches(groups, id) {
        var k :| 0 <= k < |groups| && groups[k].zone.id == id;
        AttemptReachesGoal(w0, groups, [], k);
      } else {
        assert forall i | 0 <= i < |groups| :: groups[i] in groups;
        OtherZonesUntouched(w0, groups, attempts, id);
        ApplyGroupsElsewhere(w, groups, last.fates, |groups|, id);
        ApplyGroupsElsewhere(w0, groups, [], |groups|, id);
      }
    }
    SameEverywhere(after, single);
  }

  // ----- From change sets to groups -----

  lemma ShareKeys(zones: seq<Zone>, n: Name, cs: ChangeSet)
    ensures Elems(WriteKeys(Share(zones, n, cs).Writes())) <= Elems(WriteKeys(cs.Writes()))
    ensures DeleteKeys(Share(zones, n, cs)) <= DeleteKeys(cs)
  {
    var s := Share(zones, n, cs);
    KeysOfSubset(s.Writes(), cs.Writes()) by {
      Seqs.FilterMembers(OwnedAs(zones, n), cs.create);
      Seqs.FilterMembers(OwnedAs(zones, n), cs.updateTo);
    }
    KeysOfSubset(s.delete, cs.delete) by {
      Seqs.FilterMembers(OwnedAs(zones, n), cs.delete);
    }
  }

  lemma KeysOfSubset(a: seq<Record>, b: seq<Record>)
    requires forall r <- a :: r in b
    ensures Elems(WriteKeys(a)) <= Elems(WriteKeys(b))
  {
    forall k | k in WriteKeys(a) ensures k in WriteKeys(b) {
      var i :| 0 <= i < |a| && WriteKeys(a)[i] == k;
      assert a[i] in b;
      var j :| 0 <= j < |b| && b[j] == a[i];
      assert WriteKeys(b)[j] == k;
    }
  }

  /** A change set that deletes nothing it writes splits into groups that settle, whatever is published. */
  lemma GroupsAreSound(zones: seq<Zone>, cs: ChangeSet, groups: seq<Group>, w: World)
    requires IsGrouping(zones, cs, groups) && IdsIdentify(zones) && DeletesNoWrite(cs)
    ensures Sound(w, groups)
  {
    hide Edit;
    GroupIdsDistinct(zones, cs, groups);
    forall k | 0 <= k < |groups| ensures Settles(w, groups[k]) && !groups[k].changes.IsEmpty() {
      GroupsAreNonEmpty(zones, cs, groups, groups[k]);
      GroupDeletesNoWrite(zones, cs, groups, groups[k]);
      DeletesNoWriteIsRepeatable(Published(w, groups[k].zone.id), groups[k].changes);
    }
  }

  lemma GroupDeletesNoWrite(zones: seq<Zone>, cs: ChangeSet, groups: seq<Group>, g: Group)
    requires IsGrouping(zones, cs, groups) && DeletesNoWrite(cs) && g in groups
    ensures DeletesNoWrite(g.changes)
  {
    ShareKeys(zones, g.zone.name, cs);
  }

  /** A zone that is touched at all owns a record of the change set. */
  lemma TouchedZoneOwnsRecord(zones: seq<Zone>, cs: ChangeSet, groups: seq<Group>, z: Zone)
    requires IsGrouping(zones, cs, groups) && IdsIdentify(zones) && z in zones
    ensures Touches(groups, z.id) ==> IsOwnerName(zones, cs, z.name)
  {
    if g :| g in groups && g.zone.id == z.id {
      FirstNamedFinds(zones, g.zone.name);
      assert g.zone.name in GroupNames(groups);
    }
  }

  /**
   Retry convergence of a change set. Whatever attempts were made, however each of them ended, one success
   leaves all zones as a single undisturbed attempt would have, and zones that own none of its records as they were.
   */
  lemma {:induction false} ApplyChangesConverges(zones: seq<Zone>, cs: ChangeSet, groups: seq<Group>, w0: World,
                                                 attempts: seq<Attempt>, last: Attempt)
    requires IsGrouping(zones, cs, groups) && IdsIdentify(zones) && DeletesNoWrite(cs)
    requires RunAttempt(RunAll(w0, groups, attempts), groups, last).1.None?
    ensures var after := RunAttempt(RunAll(w0, groups, attempts), groups, last).0;
            && RunAttempt(w0, groups, UNDISTURBED) == (after, None)
            && forall z <- zones :: !IsOwnerName(zones, cs, z.name) ==> Got(after, z.id) == Got(w0, z.id)
  {
    hide Edit;
    GroupsAreSound(zones, cs, groups, w0);
    RetriesConverge(w0, groups, attempts, last);
    forall z <- zones | !IsOwnerName(zones, cs, z.name)
      ensures Got(RunAttempt(w0, groups, UNDISTURBED).0, z.id) == Got(w0, z.id)
    {
      TouchedZoneOwnsRecord(zones, cs, groups, z);
      assert forall i | 0 <= i < |groups| :: groups[i] in groups;
      ApplyGroupsElsewhere(w0, groups, [], |groups|, z.id);
    }
  }
}
