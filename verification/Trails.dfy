/**
  What the back button finds: in a tab that only polls, the session history of rust/assets/app.html is
  the list of plots that the tab has shown.
 */
module Trails {
  import opened Wrappers
  import opened Registry

  /** The history has one entry for each id of the trail, shows the last, and begins with the first. */
  ghost predicate Lists(h: History, trail: seq<Id>, known: Option<Id>) {
    if trail == [] then h == History([Bare], 0) && known.None?
    else
      && |h.entries| == |trail| && h.at == |trail| - 1
      && (forall i :: 0 <= i < |trail| ==> h.entries[i] == Hashed(trail[i]))
      && known == Some(trail[|trail| - 1])
  }

  /** An answer that is new to the tab comes behind everything in the trail. */
  lemma AnswerExtendsTrail(s: State, trail: seq<Id>, id: Id)
    requires ServerGood(s) && TabGood(s) && Pending(s.tab) == Some(id) && s.latestKnown != Some(id)
    requires Ordered(s.stores, trail, s.latestKnown)
    ensures Ordered(s.stores, trail + [id], Some(id))
  {
    if s.latestKnown.Some? {
      RankIsPosition(s.stores, s.latestKnown.value);
      RankIsPosition(s.stores, id);
    }
    WritingKeepsOrder(s.stores, trail, s.latestKnown, id);
  }

  /** The tab has an answer in hand that is new to it. */
  predicate Brings(s: State) {
    Pending(s.tab).Some? && Pending(s.tab) != s.latestKnown
  }

  lemma TabExtendsTrail(s: State, trail: seq<Id>) returns (trail': seq<Id>)
    requires ServerGood(s) && TabGood(s)
    requires Lists(s.history, trail, s.latestKnown) && Ordered(s.stores, trail, s.latestKnown)
    ensures Lists(TabNext(s).history, trail', TabNext(s).latestKnown)
    ensures Ordered(TabNext(s).stores, trail', TabNext(s).latestKnown)
    ensures trail' == if Brings(s) then trail + [Pending(s.tab).value] else trail
  {
    trail' := trail;
    if Brings(s) {
      AnswerExtendsTrail(s, trail, Pending(s.tab).value);
      trail' := trail + [Pending(s.tab).value];
    }
    hide Ordered, ServerGood;
  }

  lemma StepExtendsTrail(s: State, l: Label, trail: seq<Id>) returns (trail': seq<Id>)
    requires ServerGood(s) && TabGood(s) && Enabled(s, l) && !ByUser(l)
    requires Lists(s.history, trail, s.latestKnown) && Ordered(s.stores, trail, s.latestKnown)
    ensures Lists(Next(s, l).history, trail', Next(s, l).latestKnown)
    ensures Ordered(Next(s, l).stores, trail', Next(s, l).latestKnown)
    ensures trail' == if l.Tabs? && Brings(s) then trail + [Pending(s.tab).value] else trail
  {
    trail' := trail;
    if l.Tabs? {
      trail' := TabExtendsTrail(s, trail);
    } else if l.Register? && s.registrations[l.i].at.Inserted? {
      StoreKeepsOrder(s.stores, s.registrations[l.i].id, trail, s.latestKnown);
    }
    hide Ordered, Lists, ServerGood;
  }

  /**
    However registrations, polls and failures interleave, and whether the first plot was there at
    start-up or came later: the history lists plots in the order in which they were stored, none twice, with
    no blank page before the first and the newest known one on show.
   */
  lemma {:induction false} HistoryListsPlotsInOrder(states: seq<State>, labels: seq<Label>, k: nat) returns (trail: seq<Id>)
    requires IsRun(states, labels) && k < |states|
    requires states[0].history == History([Bare], 0)
    requires forall j :: 0 <= j < k ==> !ByUser(labels[j])
    ensures Lists(states[k].history, trail, states[k].latestKnown)
    ensures Ordered(states[k].stores, trail, states[k].latestKnown)
    decreases k
  {
    trail := [];
    if k > 0 {
      trail := HistoryListsPlotsInOrder(states, labels, k - 1);
      RunIsGood(states, labels, k - 1);
      trail := StepExtendsTrail(states[k - 1], labels[k - 1], trail);
    }
  }
}
