/** The periodic check cycle, `check_accounts` in main_ru.py: links are
    checked one after another; a link whose status cannot be obtained is
    skipped; otherwise the change lines are computed, the owner is notified
    when something changed, and only then is the stored row overwritten (or
    created on the first successful check).

    What the outside world does during a link's check is an input: the
    status `get_account_status` returned, the clock, and whether the update
    message and, after a failed update, the error message reached the owner. */
module Checker {
  import opened Wrappers
  import opened Profile
  import opened Changes

  /** A links row: its id, the profile URL and the owner's chat. */
  datatype Link = Link(id: nat, url: string, chat: int)

  /** What happened while checking one link. */
  datatype Probe = Probe(
    status: Option<Status>,   // the result of get_account_status
    now: int,                 // the clock during this link's check
    delivered: bool,          // the update message was sent
    alertDelivered: bool)     // the "check error" message was sent after a failed update

  /** A message that reached a link's owner. */
  datatype Notification =
    | Update(chat: int, url: string, lines: seq<Event>)
    | CheckFailed(chat: int, url: string)

  /** The store, the messages delivered so far, and whether the cycle was
      cut short by an exception escaping the per-link handler. */
  datatype CycleState = CycleState(store: map<nat, Status>, sent: seq<Notification>, aborted: bool)

  function Lookup(store: map<nat, Status>, id: nat): Option<Status> {
    if id in store then Some(store[id]) else None
  }

  /** The update message goes out when a stored row exists and differs. */
  predicate Notifies(prev: Option<Status>, cur: Status) {
    prev.Some? && Differs(prev.value, cur)
  }

  /** Both messages failed for a link whose update was due: the exception
      raised by the error report escapes the per-link handler. */
  predicate BothSendsFailed(prev: Option<Status>, p: Probe) {
    p.status.Some? && Notifies(prev, p.status.value) && !p.delivered && !p.alertDelivered
  }

  /** Checking one link: nothing happens once the cycle is cut short, and a
      link whose status could not be obtained changes nothing; the cycle is
      cut short exactly when both messages failed for a due update; no other
      link's row changes, the link's own row is never removed, and at most
      one message is added after those already delivered. */
  function Step(st: CycleState, link: Link, p: Probe): (r: CycleState)
    ensures st.aborted ==> r == st
    ensures p.status.None? ==> r == st
    ensures r.aborted <==> st.aborted || BothSendsFailed(Lookup(st.store, link.id), p)
    ensures forall id :: id != link.id ==> Lookup(r.store, id) == Lookup(st.store, id)
    ensures st.store.Keys <= r.store.Keys
    ensures |st.sent| <= |r.sent| <= |st.sent| + 1 && r.sent[..|st.sent|] == st.sent
    ensures r.aborted ==> r.store == st.store
  {
    if st.aborted || p.status.None? then st
    else
      var prev := Lookup(st.store, link.id);
      var cur := p.status.value;
      var written := st.(store := st.store[link.id := Record(prev, cur, p.now)]);
      if !Notifies(prev, cur) then written
      else if p.delivered then written.(sent := st.sent + [Update(link.chat, link.url, Events(prev.value, cur, p.now))])
      else if p.alertDelivered then st.(sent := st.sent + [CheckFailed(link.chat, link.url)])
      else st.(aborted := true)
  }

  /** Checking the links in order, starting from `store`: no row is
      removed, and each link yields at most one message. */
  function Cycle(store: map<nat, Status>, links: seq<Link>, probes: seq<Probe>): (r: CycleState)
    requires |probes| == |links|
    ensures store.Keys <= r.store.Keys
    ensures |r.sent| <= |links|
  {
    if links == [] then CycleState(store, [], false)
    else
      var n := |links| - 1;
      Step(Cycle(store, links[..n], probes[..n]), links[n], probes[n])
  }

  predicate DistinctIds(links: seq<Link>) {
    forall i, j :: 0 <= i < j < |links| ==> links[i].id != links[j].id
  }

  ghost predicate AllConsistent(store: map<nat, Status>) {
    forall id :: id in store ==> Consistent(store[id])
  }

  /** The account_statuses table, keyed by link id. */
  class Tracker {
    var statuses: map<nat, Status>

    ghost predicate Valid()
      reads this
    {
      AllConsistent(statuses)
    }

    constructor ()
      ensures Valid() && statuses == map[]
    {
      statuses := map[];
    }

    /** One run of `check_accounts` over `links`, with `probes[i]` saying
        what happened while checking `links[i]`. */
    method CheckAccounts(links: seq<Link>, probes: seq<Probe>) returns (sent: seq<Notification>)
      requires Valid() && |probes| == |links|
      modifies this
      ensures Valid()
      ensures statuses == Cycle(old(statuses), links, probes).store
      ensures sent == Cycle(old(statuses), links, probes).sent
    {
      sent := [];
      var aborted := false;
      var i := 0;
      while i < |links| && !aborted
        invariant 0 <= i <= |links|
        invariant CycleState(statuses, sent, aborted) == Cycle(old(statuses), links[..i], probes[..i])
        invariant Valid()
      {
        assert links[..i + 1][..i] == links[..i] && probes[..i + 1][..i] == probes[..i];
        sent, aborted := CheckLink(links[i], probes[i], sent);
        i := i + 1;
      }
      if aborted {
        AbortedCycleStops(old(statuses), links, probes, i);
      } else {
        assert links[..i] == links && probes[..i] == probes;
      }
    }

    /** The body of the loop for one link: `sent` holds the messages
        delivered earlier in the cycle. */
    method CheckLink(link: Link, p: Probe, sent: seq<Notification>) returns (sent': seq<Notification>, aborted: bool)
      requires Valid()
      modifies this
      ensures Valid()
      ensures CycleState(statuses, sent', aborted) == Step(CycleState(old(statuses), sent, false), link, p)
    {
      sent', aborted := sent, false;
      if p.status.None? {
        return;
      }
      var cur := p.status.value;
      var prev := if link.id in statuses then Some(statuses[link.id]) else None;
      var messages: seq<Event> := [];
      var changes := false;
      if prev.Some? {
        messages, changes := Diff(prev.value, cur, p.now);
      }
      var sessionStart := SessionStart(prev, cur, p.now);
      if changes {
        if p.delivered {
          sent' := sent' + [Update(link.chat, link.url, messages)];
        } else {
          // The send raised: the handler reports the failure, and the row
          // is left as it was.
          if p.alertDelivered {
            sent' := sent' + [CheckFailed(link.chat, link.url)];
          } else {
            // The report raised too, and the cycle's outer handler ends
            // the cycle.
            aborted := true;
          }
          return;
        }
      }
      statuses := statuses[link.id := Status(cur.inGame, cur.gameName, cur.username, cur.onlineStatus, sessionStart, p.now)];
    }
  }

  /** Once the cycle is cut short, later links are not checked. */
  lemma {:induction false} AbortedCycleStops(store: map<nat, Status>, links: seq<Link>, probes: seq<Probe>, k: nat)
    requires |probes| == |links| && k <= |links|
    requires Cycle(store, links[..k], probes[..k]).aborted
    ensures Cycle(store, links, probes) == Cycle(store, links[..k], probes[..k])
    decreases |links|
  {
    if k < |links| {
      var n := |links| - 1;
      assert links[..n][..k] == links[..k] && probes[..n][..k] == probes[..k];
      AbortedCycleStops(store, links[..n], probes[..n], k);
    } else {
      assert links[..k] == links && probes[..k] == probes;
    }
  }

  /** A link not in the cycle keeps its stored row. */
  lemma {:induction false} UncheckedRowUntouched(store: map<nat, Status>, links: seq<Link>, probes: seq<Probe>, id: nat)
    requires |probes| == |links|
    requires forall i :: 0 <= i < |links| ==> links[i].id != id
    ensures Lookup(Cycle(store, links, probes).store, id) == Lookup(store, id)
  {
    if links != [] {
      var n := |links| - 1;
      UncheckedRowUntouched(store, links[..n], probes[..n], id);
    }
  }

  /** The cycle is cut short exactly when, for some link, an update was due
      against the row stored before the cycle and both the update and the
      error report failed. */
  lemma {:induction false} CycleCutShortIff(store: map<nat, Status>, links: seq<Link>, probes: seq<Probe>)
    requires |probes| == |links| && DistinctIds(links)
    ensures Cycle(store, links, probes).aborted
        <==> exists i :: 0 <= i < |links| && BothSendsFailed(Lookup(store, links[i].id), probes[i])
  {
    if links != [] {
      var n := |links| - 1;
      CycleCutShortIff(store, links[..n], probes[..n]);
      UncheckedRowUntouched(store, links[..n], probes[..n], links[n].id);
      if exists i :: 0 <= i < |links| && BothSendsFailed(Lookup(store, links[i].id), probes[i]) {
        var i :| 0 <= i < |links| && BothSendsFailed(Lookup(store, links[i].id), probes[i]);
        if i < n {
          assert links[..n][i] == links[i] && probes[..n][i] == probes[i];
        }
      }
    }
  }

  /** A link whose status could not be obtained is skipped: the cycle state
      after it is the one before it, so the next link is checked. */
  lemma SkippedLinkPassedOver(store: map<nat, Status>, links: seq<Link>, probes: seq<Probe>, k: nat)
    requires |probes| == |links|
    requires k < |links| && probes[k].status.None?
    ensures Cycle(store, links[..k + 1], probes[..k + 1]) == Cycle(store, links[..k], probes[..k])
  {
    assert links[..k + 1][..k] == links[..k] && probes[..k + 1][..k] == probes[..k];
  }

  /** A link whose status could not be obtained keeps its stored row (or
      still has none), whatever happens to the other links. */
  lemma {:induction false} FailedCheckLeavesRow(store: map<nat, Status>, links: seq<Link>, probes: seq<Probe>, k: nat)
    requires |probes| == |links| && DistinctIds(links)
    requires k < |links| && probes[k].status.None?
    ensures Lookup(Cycle(store, links, probes).store, links[k].id) == Lookup(store, links[k].id)
  {
    var n := |links| - 1;
    if k == n {
      UncheckedRowUntouched(store, links[..n], probes[..n], links[k].id);
    } else {
      FailedCheckLeavesRow(store, links[..n], probes[..n], k);
    }
  }

  /** After a successful check that was not cut short, the row holds the
      fetched fields, the derived session start and the check time: when
      nothing changed, or when the update message was delivered. */
  lemma {:induction false} CheckedRowWrittenBack(store: map<nat, Status>, links: seq<Link>, probes: seq<Probe>, k: nat)
    requires |probes| == |links| && DistinctIds(links)
    requires k < |links| && probes[k].status.Some?
    requires !Cycle(store, links[..k], probes[..k]).aborted
    requires !Notifies(Lookup(store, links[k].id), probes[k].status.value) || probes[k].delivered
    ensures Lookup(Cycle(store, links, probes).store, links[k].id)
         == Some(Record(Lookup(store, links[k].id), probes[k].status.value, probes[k].now))
  {
    var n := |links| - 1;
    var id := links[k].id;
    var st := Cycle(store, links[..n], probes[..n]);
    assert Cycle(store, links, probes) == Step(st, links[n], probes[n]);
    if k == n {
      assert links[..n] == links[..k] && probes[..n] == probes[..k];
      UncheckedRowUntouched(store, links[..n], probes[..n], id);
      assert Lookup(st.store, id) == Lookup(store, id);
    } else {
      assert links[..n][..k] == links[..k] && probes[..n][..k] == probes[..k];
      CheckedRowWrittenBack(store, links[..n], probes[..n], k);
      assert links[n].id != id;
    }
  }

  /** When the update message could not be sent, the row is left as it was:
      the message goes out before the write-back. */
  lemma {:induction false} UndeliveredUpdateLeavesRow(store: map<nat, Status>, links: seq<Link>, probes: seq<Probe>, k: nat)
    requires |probes| == |links| && DistinctIds(links)
    requires k < |links| && probes[k].status.Some? && !probes[k].delivered
    requires Notifies(Lookup(store, links[k].id), probes[k].status.value)
    ensures Lookup(Cycle(store, links, probes).store, links[k].id) == Lookup(store, links[k].id)
  {
    var n := |links| - 1;
    var id := links[k].id;
    if k == n {
      UncheckedRowUntouched(store, links[..n], probes[..n], id);
    } else {
      UndeliveredUpdateLeavesRow(store, links[..n], probes[..n], k);
    }
  }

  /** The first successful check of a link only records a baseline: no
      message is sent for it. */
  lemma FirstCheckIsSilent(st: CycleState, link: Link, p: Probe)
    requires link.id !in st.store
    ensures Step(st, link, p).sent == st.sent
    ensures !Step(st, link, p).aborted || st.aborted
  {
  }

  /** A link with a stored row yields an update message exactly when one of
      the watched fields changed and the message could be delivered; its
      lines are the change lines. */
  lemma UpdateSentIffChanged(st: CycleState, link: Link, p: Probe)
    requires !st.aborted && p.status.Some? && link.id in st.store
    ensures Step(st, link, p).sent == (
      if !Differs(st.store[link.id], p.status.value) then st.sent
      else if p.delivered then st.sent + [Update(link.chat, link.url, Events(st.store[link.id], p.status.value, p.now))]
      else if p.alertDelivered then st.sent + [CheckFailed(link.chat, link.url)]
      else st.sent)
  {
  }

  /** Every row written in a cycle has a session start exactly when it is in
      game, so the stored table keeps that invariant. */
  lemma {:induction false} CycleKeepsConsistent(store: map<nat, Status>, links: seq<Link>, probes: seq<Probe>)
    requires |probes| == |links| && AllConsistent(store)
    ensures AllConsistent(Cycle(store, links, probes).store)
  {
    if links != [] {
      var n := |links| - 1;
      CycleKeepsConsistent(store, links[..n], probes[..n]);
    }
  }
}
