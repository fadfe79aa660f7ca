/**
 The published zones and one whole run of ApplyChanges over them: internal/provider/apply.go on top of
 internal/dpf/apply.go. An application may fail before it takes effect, or take effect and still be reported as failed.
 */
module Backends {
  import opened Text
  import opened Scopes
  import opened Records
  import opened Seqs
  import opened Validate
  import opened Grouping
  import opened Overwrites
  import opened Merging
  import Applying

  /** Zone ID to published records. */
  type World = map<Text, seq<Entry>>

  function Published(w: World, id: Text): seq<Entry> {
    if id in w then w[id] else []
  }

  /** What the network makes of one application: it may fail before or after it takes effect. */
  datatype Fate = Works | FailsBefore(failure: Failure) | FailsAfter(failure: Failure)

  function Reported(fate: Fate): Option<Failure> {
    if fate.Works? then None else Some(fate.failure)
  }

  /** The effect of applying to one zone, and the error that is reported. */
  function ApplyZone(w: World, zone: Zone, cs: ChangeSet, fate: Fate): (World, Option<Failure>) {
    if cs.IsEmpty() then (w, None)
    else if fate.FailsBefore? then (w, Reported(fate))
    else
      match Edit(Published(w, zone.id), cs)
      case Refused(f) => (w, Some(f))
      case Skipped => (w, Reported(fate))
      case Submitted(es) => (w[zone.id := es], Reported(fate))
  }

  function FateAt(fates: seq<Fate>, i: nat): Fate {
    if i < |fates| then fates[i] else Works
  }

  /** The first n groups one after the other, stopping at the first failure. */
  function ApplyGroups(w: World, groups: seq<Group>, fates: seq<Fate>, n: nat): (World, Option<Failure>)
    requires n <= |groups|
  {
    if n == 0 then (w, None)
    else
      var before := ApplyGroups(w, groups, fates, n - 1);
      if before.1.Some? then before
      else ApplyZone(before.0, groups[n - 1].zone, groups[n - 1].changes, FateAt(fates, n - 1))
  }

  lemma {:induction false} ApplyGroupsStops(w: World, groups: seq<Group>, fates: seq<Fate>, n: nat, m: nat)
    requires n <= m <= |groups| && ApplyGroups(w, groups, fates, n).1.Some?
    ensures ApplyGroups(w, groups, fates, m) == ApplyGroups(w, groups, fates, n)
  {
    hide Edit;
    if n < m {
      ApplyGroupsStops(w, groups, fates, n, m - 1);
    }
  }

  /** One call of ApplyChanges that got past validation: the zone list may be unavailable, each zone may fail. */
  datatype Attempt = NoZoneList(failure: Failure) | Reach(fates: seq<Fate>)

  function RunAttempt(w: World, groups: seq<Group>, a: Attempt): (World, Option<Failure>) {
    match a
    case NoZoneList(f) => (w, Some(f))
    case Reach(fates) => ApplyGroups(w, groups, fates, |groups|)
  }

  const UNDISTURBED := Reach([])

  /** What the network says is what is reported of an edit that the zone accepts; a refusal is reported as it is. */
  lemma FateDecidesReport(w: World, zone: Zone, cs: ChangeSet, failure: Failure)
    requires cs.create != [] || cs.updateTo != [] || cs.delete != []
    ensures ApplyZone(w, zone, cs, FailsBefore(failure)) == (w, Some(failure))
    ensures var works, fails := ApplyZone(w, zone, cs, Works), ApplyZone(w, zone, cs, FailsAfter(failure));
            match Edit(Published(w, zone.id), cs)
            case Refused(f) => works == (w, Some(f)) && fails == (w, Some(f))
            case Skipped => works == (w, None) && fails == (w, Some(failure))
            case Submitted(es) => works == (w[zone.id := es], None) && fails == (w[zone.id := es], Some(failure))
  {
    hide Edit;
  }

  class Backend {
    var zones: seq<Zone>
    var published: World

    /** The records as dpf-go hands them to the edit closure: fresh objects with the published contents. */
    method Fetch(es: seq<Entry>) returns (current: array<Applying.Slot>)
      ensures fresh(current) && Applying.Views(current[..]) == es
    {
      var slots: seq<Applying.Slot> := [];
      for i := 0 to |es|
        invariant Applying.Views(slots) == es[..i]
      {
        PrefixSnoc(es, i);
        var e := es[i];
        var labels: Applying.LabelMap? := null;
        if e.labels.Some? {
          labels := new Applying.LabelMap(e.labels.value);
        }
        var slot := Overwrite(e.name, e.rrtype, e.ttl, e.rdata, e.description, labels);
        Applying.ViewsSnoc(slots, slot);
        slots := slots + [slot];
      }
      PrefixAll(es);
      current := Applying.ToSlice(slots);
    }

    method Apply(zone: Zone, cs: ChangeSet, fate: Fate) returns (err: Option<Failure>)
      modifies this`published
      ensures (published, err) == ApplyZone(old(published), zone, cs, fate)
    {
      if cs.IsEmpty() {
        return None;
      }
      if fate.FailsBefore? {
        return Reported(fate);
      }
      var current := Fetch(Published(published, zone.id));
      var r;
      ghost var made;
      r, made := Applying.EditSlots(current, cs);
      if r.EditFailed? {
        return Some(r.failure);
      }
      if r.Send? {
        published := published[zone.id := Applying.Views(r.slots[..])];
      }
      return Reported(fate);
    }

    /**
     The whole of ApplyChanges, whose groups are those of the in-scope records. A change set that gets past
     validation and has zones makes one attempt of a run, whatever befalls it.
     */
    method ApplyChanges(scope: Scope, cs: ChangeSet, attempt: Attempt)
      returns (err: Option<Failure>, ghost groups: seq<Group>)
      modifies this`published
      ensures var inScope := FilterToScope(scope, cs);
              if scope.domains == [] || (inScope.create == [] && inScope.updateTo == [] && inScope.delete == []) then
                err == None && published == old(published)
              else if FormatError(inScope).Some? then
                err == FormatError(inScope) && published == old(published)
              else if attempt.Reach? && !Resolvable(zones, inScope.All()) then
                err == Some(Permanent(ZoneNotFound)) && published == old(published)
              else
                && (attempt.Reach? ==> IsGrouping(zones, inScope, groups))
                && (published, err) == RunAttempt(old(published), groups, attempt)
    {
      hide Edit;
      groups := [];
      if cs.IsEmpty() || scope.IsEmpty() {
        return None, groups;
      }
      var inScope := RestrictToScope(scope, cs);
      if inScope.IsEmpty() {
        return None, groups;
      }
      err := Validate.ValidateFormat(inScope);
      if err.Some? {
        return;
      }
      if attempt.NoZoneList? {
        return Some(attempt.failure), groups;
      }
      var grouping := GroupByZone(inScope, zones);
      if grouping.Err? {
        return Some(grouping.failure), groups;
      }
      groups := grouping.value;
      err := ApplyAll(grouping.value, attempt.fates);
    }

    /** Group after group, stopping at the first failure. */
    method ApplyAll(groups: seq<Group>, fates: seq<Fate>) returns (err: Option<Failure>)
      modifies this`published
      ensures (published, err) == ApplyGroups(old(published), groups, fates, |groups|)
    {
      hide Edit;
      for i := 0 to |groups|
        invariant (published, None) == ApplyGroups(old(published), groups, fates, i)
      {
        err := Apply(groups[i].zone, groups[i].changes, FateAt(fates, i));
        if err.Some? {
          ApplyGroupsStops(old(published), groups, fates, i + 1, |groups|);
          return;
        }
      }
      return None;
    }
  }
}
