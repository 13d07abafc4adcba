/**
  The plot registry of rust/src/server.rs with many queries registering at once, and the polling tab of
  rust/assets/app.html.  Each lock is taken and released in one step, so registrations interleave between
  their locks with each other and with the requests of the tab.
 */
module Registry {
  import opened Wrappers

  type Id = nat
  type Bytes = seq<int>

  /** Five seconds, in ticks of one. */
  const TAB_ALIVE_WINDOW: nat := 5

  // ---------- State ----------

  datatype Progress = Waiting | Inserted | Stored | Registered(shouldOpen: bool)

  /** One call of `register_plot`. */
  datatype Registration = Registration(id: Id, hep: Bytes, at: Progress)

  datatype Location = Bare | Hashed(id: Id) | Legacy(id: Id)

  /** The browser's session history: the entries and the one that is shown. */
  datatype History = History(entries: seq<Location>, at: nat) {
    predicate Valid() { at < |entries| }

    function Shown(): Location requires Valid() { entries[at] }

    function Replace(l: Location): History requires Valid() { History(entries[at := l], at) }

    function Push(l: Location): History requires Valid() { History(entries[..at + 1] + [l], at + 1) }
  }

  /** What the tab is doing: start-up renders the location first, then the poll loop begins. */
  datatype Tab =
    | Booting
    | BootAsked
    | BootMarked
    | BootAnswered(uuid: Option<Id>)
    | Resting                      // between two polls
    | Asked                        // /api/latest is on its way
    | Marked                       // the server has noted the poll
    | Answered(uuid: Option<Id>)

  datatype State = State(
    plots: map<Id, Bytes>,
    latest: Option<Id>,
    lastPoll: Option<nat>,
    now: nat,
    registrations: seq<Registration>,
    tab: Tab,
    history: History,
    latestKnown: Option<Id>,
    stores: seq<Id>,               // every value `latest` has had, in order
    writes: seq<Id>)               // every id that pollLoop wrote to the history

  datatype Label =
    | Register(i: nat)             // the next lock of a registration
    | Tabs                         // the next step of the tab
    | Fails                        // a request of the tab fails
    | Travels(to: nat)             // the user goes back or forward to a plot
    | Opens(id: Id)                // the user enters a plot's hash
    | Second

  predicate Enabled(s: State, l: Label) {
    match l
    case Register(i) => i < |s.registrations| && !s.registrations[i].at.Registered?
    case Tabs => true
    case Fails => s.tab.BootAsked? || s.tab.BootMarked? || s.tab.BootAnswered? || s.tab.Asked? || s.tab.Marked? || s.tab.Answered?
    case Travels(to) => to < |s.history.entries| && s.history.entries[to].Hashed?
    case Opens(_) => s.history.Valid()
    case Second => true
  }

  function ShouldOpen(s: State): bool {
    s.lastPoll.None? || s.now - s.lastPoll.value > TAB_ALIVE_WINDOW
  }

  function RegisterNext(s: State, i: nat): State
    requires i < |s.registrations|
  {
    var r := s.registrations[i];
    match r.at
    case Waiting => s.(plots := s.plots[r.id := r.hep], registrations := s.registrations[i := r.(at := Inserted)])
    case Inserted =>
      s.(latest := Some(r.id), stores := s.stores + [r.id], registrations := s.registrations[i := r.(at := Stored)])
    case Stored => s.(registrations := s.registrations[i := r.(at := Registered(ShouldOpen(s)))])
    case Registered(_) => s
  }

  function TabNext(s: State): State
    requires s.history.Valid()
  {
    match s.tab
    case Booting => (
      match s.history.Shown()
      case Bare => s.(tab := BootAsked)
      case Hashed(_) => s.(tab := Resting)
      case Legacy(id) => s.(tab := Resting, history := s.history.Replace(Hashed(id))))
    case BootAsked => s.(tab := BootMarked, lastPoll := Some(s.now))
    case BootMarked => s.(tab := BootAnswered(s.latest))
    case BootAnswered(uuid) =>
      if uuid.Some? then s.(tab := Resting, latestKnown := uuid, history := s.history.Replace(Hashed(uuid.value)))
      else s.(tab := Resting)
    case Resting => s.(tab := Asked)
    case Asked => s.(tab := Marked, lastPoll := Some(s.now))
    case Marked => s.(tab := Answered(s.latest))
    case Answered(uuid) =>
      if uuid.Some? && uuid != s.latestKnown then
        s.(tab := Resting, latestKnown := uuid, writes := s.writes + [uuid.value],
           history := if s.latestKnown.None? then s.history.Replace(Hashed(uuid.value)) else s.history.Push(Hashed(uuid.value)))
      else s.(tab := Resting)
  }

  function Next(s: State, l: Label): State
    requires s.history.Valid() && Enabled(s, l)
  {
    match l
    case Register(i) => RegisterNext(s, i)
    case Tabs => TabNext(s)
    case Fails => s.(tab := Resting)
    case Travels(to) => s.(history := s.history.(at := to))
    case Opens(id) => s.(history := s.history.Push(Hashed(id)))
    case Second => s.(now := s.now + 1)
  }

  predicate Initial(s: State) {
    && s.plots == map[] && s.latest == None && s.lastPoll == None && s.stores == [] && s.writes == []
    && s.tab == Booting && s.latestKnown == None && s.history.Valid()
    && (forall i :: 0 <= i < |s.registrations| ==> s.registrations[i].at == Waiting)
    && (forall i, j :: 0 <= i < j < |s.registrations| ==> s.registrations[i].id != s.registrations[j].id)
  }

  ghost predicate IsRun(states: seq<State>, labels: seq<Label>) {
    && |states| == |labels| + 1 && Initial(states[0])
    && forall k {:trigger labels[k]} :: 0 <= k < |labels| ==>
         states[k].history.Valid() && Enabled(states[k], labels[k]) && states[k + 1] == Next(states[k], labels[k])
  }

  // ---------- The invariant ----------

  /** Where an id stands in the order of the stores. */
  function Rank(stores: seq<Id>, id: Id): nat {
    if stores == [] || stores[0] == id then 0 else 1 + Rank(stores[1..], id)
  }

  lemma {:induction false} RankIsPosition(stores: seq<Id>, id: Id)
    ensures Rank(stores, id) <= |stores|
    ensures id in stores <==> Rank(stores, id) < |stores|
    ensures id in stores ==> stores[Rank(stores, id)] == id
  {
    if stores != [] && stores[0] != id {
      RankIsPosition(stores[1..], id);
      assert stores == [stores[0]] + stores[1..];
    }
  }

  lemma {:induction false} RankSurvivesStore(stores: seq<Id>, x: Id, id: Id)
    ensures id in stores ==> Rank(stores + [x], id) == Rank(stores, id)
    ensures x !in stores ==> Rank(stores + [x], x) == |stores|
  {
    if stores != [] {
      RankSurvivesStore(stores[1..], x, id);
      assert (stores + [x])[1..] == stores[1..] + [x];
    } else {
      assert (stores + [x])[0] == x;
    }
  }

  lemma RanksSurviveStore(stores: seq<Id>, x: Id)
    ensures forall id :: id in stores ==> Rank(stores + [x], id) == Rank(stores, id)
  {
    forall id | id in stores
      ensures Rank(stores + [x], id) == Rank(stores, id)
    {
      RankSurvivesStore(stores, x, id);
    }
  }

  predicate Has(at: Progress) { !at.Waiting? }

  predicate Published(at: Progress) { at.Stored? || at.Registered? }

  /** Registrations and the map, the pointer and the order of stores agree. */
  ghost predicate ServerGood(s: State) {
    && (forall i, j :: 0 <= i < j < |s.registrations| ==> s.registrations[i].id != s.registrations[j].id)
    && (forall i :: 0 <= i < |s.registrations| && Has(s.registrations[i].at) ==>
          s.registrations[i].id in s.plots && s.plots[s.registrations[i].id] == s.registrations[i].hep)
    && (forall i :: 0 <= i < |s.registrations| ==>
          (s.registrations[i].id in s.stores <==> Published(s.registrations[i].at)))
    && (forall id :: id in s.stores ==> id in s.plots)
    && (forall i, j :: 0 <= i < j < |s.stores| ==> s.stores[i] != s.stores[j])
    && s.latest == (if s.stores == [] then None else Some(s.stores[|s.stores| - 1]))
  }

  /** The uuid in an answer that the tab has not handled yet. */
  function Pending(t: Tab): Option<Id> {
    match t
    case Answered(uuid) => uuid
    case BootAnswered(uuid) => uuid
    case _ => None
  }

  /** What the tab knows was stored; what it wrote is in the order of the stores, and no newer than what it knows. */
  ghost predicate TabGood(s: State) {
    && s.history.Valid()
    && (s.latestKnown.Some? ==> s.latestKnown.value in s.stores)
    && (Pending(s.tab).Some? ==> Pending(s.tab).value in s.stores)
    && (Pending(s.tab).Some? && s.latestKnown.Some? ==>
          Rank(s.stores, s.latestKnown.value) <= Rank(s.stores, Pending(s.tab).value))
    && (s.tab.Booting? || s.tab.BootAsked? || s.tab.BootMarked? || s.tab.BootAnswered? ==> s.latestKnown.None?)
    && Ordered(s.stores, s.writes, s.latestKnown)
  }

  /** What was written was stored, in the order of the stores, and is no newer than what is known. */
  ghost predicate Ordered(stores: seq<Id>, writes: seq<Id>, known: Option<Id>) {
    && (forall i :: 0 <= i < |writes| ==>
          && writes[i] in stores && known.Some?
          && Rank(stores, writes[i]) <= Rank(stores, known.value))
    && (forall i, j :: 0 <= i < j < |writes| ==> Rank(stores, writes[i]) < Rank(stores, writes[j]))
  }

  lemma StoreKeepsOrder(stores: seq<Id>, x: Id, writes: seq<Id>, known: Option<Id>)
    requires Ordered(stores, writes, known) && (known.Some? ==> known.value in stores)
    ensures Ordered(stores + [x], writes, known)
  {
    RanksSurviveStore(stores, x);
    var stores' := stores + [x];
    assert known.Some? ==> Rank(stores', known.value) == Rank(stores, known.value);
    forall i | 0 <= i < |writes|
      ensures writes[i] in stores' && known.Some? && Rank(stores', writes[i]) == Rank(stores, writes[i])
      ensures Rank(stores', writes[i]) <= Rank(stores', known.value)
    {
      assert writes[i] in stores;
    }
    forall i, j | 0 <= i < j < |writes|
      ensures Rank(stores', writes[i]) < Rank(stores', writes[j])
    {
      assert Rank(stores, writes[i]) < Rank(stores, writes[j]);
    }
  }

  lemma WritingKeepsOrder(stores: seq<Id>, writes: seq<Id>, known: Option<Id>, id: Id)
    requires Ordered(stores, writes, known) && id in stores
    requires known.Some? ==> Rank(stores, known.value) < Rank(stores, id)
    ensures Ordered(stores, writes + [id], Some(id))
  {
    var writes' := writes + [id];
    forall i | 0 <= i < |writes'|
      ensures writes'[i] in stores && Rank(stores, writes'[i]) <= Rank(stores, id)
      ensures i < |writes| ==> Rank(stores, writes'[i]) < Rank(stores, id)
    {
      if i < |writes| { assert writes'[i] == writes[i]; }
    }
    forall i, j | 0 <= i < j < |writes'|
      ensures Rank(stores, writes'[i]) < Rank(stores, writes'[j])
    {
      assert writes'[i] == writes[i];
      assert j < |writes| ==> writes'[j] == writes[j];
    }
  }

  lemma WhoWroteKnows(stores: seq<Id>, writes: seq<Id>, known: Option<Id>)
    requires Ordered(stores, writes, known)
    ensures writes != [] ==> known.Some?
  {
    if writes != [] { assert writes[0] in stores; }
  }

  lemma RegisterKeepsServerGood(s: State, i: nat)
    requires ServerGood(s) && i < |s.registrations|
    ensures ServerGood(RegisterNext(s, i))
  {
  }

  lemma RegisterKeepsTabGood(s: State, i: nat)
    requires ServerGood(s) && TabGood(s) && i < |s.registrations|
    ensures TabGood(RegisterNext(s, i))
  {
    var r := s.registrations[i];
    if r.at.Inserted? {
      StoreKeepsOrder(s.stores, r.id, s.writes, s.latestKnown);
      RanksSurviveStore(s.stores, r.id);
    }
    hide Ordered;
  }

  lemma TabKeepsGood(s: State)
    requires ServerGood(s) && TabGood(s)
    ensures ServerGood(TabNext(s)) && TabGood(TabNext(s))
  {
    match s.tab
    case Answered(uuid) => HandlingKeepsTabGood(s, uuid);
    case Marked => ReadingKeepsTabGood(s);
    case _ => OtherTabStepsKeepGood(s);
  }

  lemma OtherTabStepsKeepGood(s: State)
    requires ServerGood(s) && TabGood(s) && !s.tab.Answered? && !s.tab.Marked?
    ensures ServerGood(TabNext(s)) && TabGood(TabNext(s))
  {
    WhoWroteKnows(s.stores, s.writes, s.latestKnown);
  }

  /** What is read is the newest store, so nothing the tab knows is newer. */
  lemma ReadingKeepsTabGood(s: State)
    requires ServerGood(s) && TabGood(s) && s.tab.Marked?
    ensures ServerGood(TabNext(s)) && TabGood(TabNext(s))
  {
    hide Ordered;
    if s.latestKnown.Some? {
      RankIsPosition(s.stores, s.latestKnown.value);
      LastHasHighestRank(s.stores);
    }
  }

  /** An answer that differs from what the tab knows is newer than it. */
  lemma HandlingKeepsTabGood(s: State, uuid: Option<Id>)
    requires ServerGood(s) && TabGood(s) && s.tab == Answered(uuid)
    ensures ServerGood(TabNext(s)) && TabGood(TabNext(s))
  {
    hide Ordered;
    if uuid.Some? && uuid != s.latestKnown {
      if s.latestKnown.Some? {
        RankIsPosition(s.stores, s.latestKnown.value);
        RankIsPosition(s.stores, uuid.value);
      }
      WritingKeepsOrder(s.stores, s.writes, s.latestKnown, uuid.value);
    }
  }

  lemma LastHasHighestRank(stores: seq<Id>)
    requires stores != [] && forall i, j :: 0 <= i < j < |stores| ==> stores[i] != stores[j]
    ensures Rank(stores, stores[|stores| - 1]) == |stores| - 1
  {
    RankIsPosition(stores, stores[|stores| - 1]);
  }

  lemma StepKeepsGood(s: State, l: Label)
    requires ServerGood(s) && TabGood(s) && Enabled(s, l)
    ensures ServerGood(Next(s, l)) && TabGood(Next(s, l))
  {
    match l
    case Register(i) =>
      RegisterKeepsServerGood(s, i);
      RegisterKeepsTabGood(s, i);
    case Tabs => TabKeepsGood(s);
    case _ =>
  }

  lemma {:induction false} RunIsGood(states: seq<State>, labels: seq<Label>, k: nat)
    requires IsRun(states, labels) && k < |states|
    ensures ServerGood(states[k]) && TabGood(states[k])
    decreases k
  {
    if k > 0 {
      RunIsGood(states, labels, k - 1);
      StepKeepsGood(states[k - 1], labels[k - 1]);
    }
  }

  // ---------- The registry ----------

  /** `latest` always names a plot that can be fetched, and so does whatever the tab was told. */
  lemma LatestCanBeFetched(states: seq<State>, labels: seq<Label>, k: nat)
    requires IsRun(states, labels) && k < |states|
    ensures var s := states[k];
      && (s.latest.Some? ==> s.latest.value in s.plots)
      && (Pending(s.tab).Some? ==> Pending(s.tab).value in s.plots)
      && (s.latestKnown.Some? ==> s.latestKnown.value in s.plots)
      && (forall i :: 0 <= i < |s.registrations| && Has(s.registrations[i].at) ==>
            s.registrations[i].id in s.plots && s.plots[s.registrations[i].id] == s.registrations[i].hep)
  {
    RunIsGood(states, labels, k);
  }

  /** An id that is known maps to the same bytes ever after. */
  lemma {:induction false} PlotsNeverChange(states: seq<State>, labels: seq<Label>, j: nat, k: nat, id: Id)
    requires IsRun(states, labels) && j <= k < |states| && id in states[j].plots
    ensures id in states[k].plots && states[k].plots[id] == states[j].plots[id]
    decreases k
  {
    if j < k {
      PlotsNeverChange(states, labels, j, k - 1, id);
      RunIsGood(states, labels, k - 1);
      PlotsComeFromRegistrations(states, labels, k - 1, id);
      StepKeepsSupplier(states[k - 1], labels[k - 1], id);
      assert states[k] == Next(states[k - 1], labels[k - 1]);
    }
  }

  /** Every known id belongs to a registration past its first lock, and maps to that registration's document. */
  lemma {:induction false} PlotsComeFromRegistrations(states: seq<State>, labels: seq<Label>, k: nat, id: Id)
    requires IsRun(states, labels) && k < |states| && id in states[k].plots
    ensures exists i :: 0 <= i < |states[k].registrations| && Supplies(states[k].registrations[i], id, states[k].plots[id])
    decreases k
  {
    if k > 0 {
      var s, l := states[k - 1], labels[k - 1];
      assert states[k] == Next(s, l);
      RunIsGood(states, labels, k - 1);
      if id in s.plots {
        PlotsComeFromRegistrations(states, labels, k - 1, id);
      }
      StepKeepsSupplier(s, l, id);
    }
  }

  predicate Supplies(r: Registration, id: Id, hep: Bytes) {
    r.id == id && Has(r.at) && r.hep == hep
  }

  lemma StepKeepsSupplier(s: State, l: Label, id: Id)
    requires ServerGood(s) && TabGood(s) && Enabled(s, l) && id in Next(s, l).plots
    requires id in s.plots ==> exists i :: 0 <= i < |s.registrations| && Supplies(s.registrations[i], id, s.plots[id])
    ensures exists i :: 0 <= i < |s.registrations| && Supplies(Next(s, l).registrations[i], id, Next(s, l).plots[id])
    ensures |Next(s, l).registrations| == |s.registrations|
    ensures id in s.plots ==> Next(s, l).plots[id] == s.plots[id]
  {
    var i := if id in s.plots then
      var i :| 0 <= i < |s.registrations| && Supplies(s.registrations[i], id, s.plots[id]); i
      else l.i;
    assert Supplies(Next(s, l).registrations[i], id, Next(s, l).plots[id]);
  }

  // ---------- The tab ----------

  /** The poll loop writes ids to the history in the order in which they were stored, and none twice. */
  lemma WritesFollowStores(states: seq<State>, labels: seq<Label>, k: nat, a: nat, b: nat)
    requires IsRun(states, labels) && k < |states| && a < b < |states[k].writes|
    ensures var s := states[k];
      && Rank(s.stores, s.writes[a]) < Rank(s.stores, s.writes[b]) < |s.stores|
      && s.stores[Rank(s.stores, s.writes[a])] == s.writes[a] != s.writes[b]
  {
    var s := states[k];
    RunIsGood(states, labels, k);
    RankIsPosition(s.stores, s.writes[a]);
    RankIsPosition(s.stores, s.writes[b]);
  }

  /** From `a` to `b` nothing new is stored. */
  ghost predicate LatestStays(states: seq<State>, a: nat, b: nat)
    requires b < |states|
  {
    forall k :: a <= k <= b ==> states[k].latest == states[a].latest
  }

  predicate UpToDate(s: State) {
    && s.latestKnown == s.latest
    && (Pending(s.tab).Some? ==> Pending(s.tab) == s.latest)
    && (s.tab.Resting? || s.tab.Asked? || s.tab.Marked? || s.tab.Answered?)
  }

  /**
    Once the tab knows the latest plot, and until another is stored, only the user moves the tab: every
    step that is not the user's leaves the history as it was, wherever the user has gone meanwhile.
   */
  lemma {:induction false} LocationIsLeftAlone(states: seq<State>, labels: seq<Label>, a: nat, b: nat)
    requires IsRun(states, labels) && a <= b < |states|
    requires LatestStays(states, a, b) && UpToDate(states[a])
    ensures UpToDate(states[b])
    ensures forall k :: a <= k < b && !labels[k].Travels? && !labels[k].Opens? ==> states[k + 1].history == states[k].history
    decreases b
  {
    if a < b {
      LocationIsLeftAlone(states, labels, a, b - 1);
      var s, l := states[b - 1], labels[b - 1];
      assert states[b] == Next(s, l);
      assert states[b].latest == s.latest;
    }
  }

  predicate ByUser(l: Label) {
    l.Travels? || l.Opens?
  }

  /** A poll that will be answered with the latest plot is on its way, or has been handled. */
  predicate OnItsWay(s: State) {
    s.tab.Asked? || s.tab.Marked? || s.tab == Answered(s.latest) || UpToDate(s)
  }

  lemma StepBringsAnswer(s: State, l: Label)
    requires ServerGood(s) && TabGood(s) && Enabled(s, l) && !l.Fails? && OnItsWay(s) && Next(s, l).latest == s.latest
    ensures OnItsWay(Next(s, l))
  {
    hide Rank, Ordered;
  }

  /** However a poll interleaves with the server and the user: once it is over the tab knows the latest plot. */
  lemma {:induction false} PollBringsUpToDate(states: seq<State>, labels: seq<Label>, a: nat, b: nat)
    requires IsRun(states, labels) && a <= b < |states| && LatestStays(states, a, b)
    requires states[a].tab.Asked? && forall k :: a <= k < b ==> !labels[k].Fails?
    ensures OnItsWay(states[b])
    ensures states[b].tab.Resting? ==> states[b].latestKnown == states[b].latest
    decreases b
  {
    if a < b {
      PollBringsUpToDate(states, labels, a, b - 1);
      RunIsGood(states, labels, b - 1);
      assert states[b] == Next(states[b - 1], labels[b - 1]) && states[b].latest == states[b - 1].latest;
      StepBringsAnswer(states[b - 1], labels[b - 1]);
    }
  }

  /** If the plot was new to the tab and the user does not go elsewhere, it is then on show. */
  lemma {:induction false} PollShowsLatest(states: seq<State>, labels: seq<Label>, a: nat, b: nat)
    requires IsRun(states, labels) && a <= b < |states| && LatestStays(states, a, b)
    requires states[a].tab.Asked? && forall k :: a <= k < b ==> !labels[k].Fails? && !ByUser(labels[k])
    requires states[a].latestKnown != states[a].latest && states[a].latest.Some?
    ensures var s := states[b];
      if s.latestKnown == s.latest then s.history.Valid() && s.history.Shown() == Hashed(s.latest.value)
      else s.latestKnown == states[a].latestKnown && !s.tab.Resting?
    decreases b
  {
    if a < b {
      PollShowsLatest(states, labels, a, b - 1);
      PollBringsUpToDate(states, labels, a, b - 1);
      RunIsGood(states, labels, b - 1);
      assert states[b] == Next(states[b - 1], labels[b - 1]) && states[b].latest == states[b - 1].latest;
      StepShowsAnswer(states[b - 1], labels[b - 1]);
    }
  }

  lemma StepShowsAnswer(s: State, l: Label)
    requires ServerGood(s) && TabGood(s) && Enabled(s, l) && !l.Fails? && !ByUser(l)
    requires OnItsWay(s) && Next(s, l).latest == s.latest && s.latest.Some?
    ensures var s' := Next(s, l);
      && (s.latestKnown == s.latest ==> s'.latestKnown == s'.latest && s'.history == s.history)
      && (s'.latestKnown == s.latestKnown || (s'.latestKnown == s'.latest && s'.history.Valid() && s'.history.Shown() == Hashed(s.latest.value)))
      && (s.latestKnown != s.latest && !s.tab.Resting? && s'.tab.Resting? ==> s'.latestKnown == s'.latest)
  {
    hide Rank, Ordered;
  }

  /** Every advance keeps the way back: as many steps back as the tab has advanced show what was shown before. */
  lemma {:induction false} WayBackIsKept(states: seq<State>, labels: seq<Label>, a: nat, b: nat)
    requires IsRun(states, labels) && a <= b < |states| && states[a].latestKnown.Some?
    requires forall k :: a <= k < b ==> !ByUser(labels[k])
    ensures states[b].latestKnown.Some? && states[a].history.Valid() && states[b].history.Valid()
    ensures var h, h', advances := states[a].history, states[b].history, |states[b].writes| - |states[a].writes|;
      && 0 <= advances && h'.at == h.at + advances
      && h'.entries[..h.at + 1] == h.entries[..h.at + 1]
      && h'.(at := h'.at - advances).Shown() == h.Shown()
    decreases b
  {
    RunIsGood(states, labels, a);
    if a < b {
      WayBackIsKept(states, labels, a, b - 1);
      RunIsGood(states, labels, b - 1);
      assert states[b] == Next(states[b - 1], labels[b - 1]);
      StepKeepsWayBack(states[b - 1], labels[b - 1]);
      var n, h0, h1, h2 := states[a].history.at + 1, states[a].history, states[b - 1].history, states[b].history;
      assert h2.entries[..n] == h2.entries[..h1.at + 1][..n] == h1.entries[..h1.at + 1][..n] == h1.entries[..n];
      assert h2.entries[..n][n - 1] == h0.entries[..n][n - 1];
    }
  }

  lemma StepKeepsWayBack(s: State, l: Label)
    requires TabGood(s) && Enabled(s, l) && !ByUser(l) && s.latestKnown.Some?
    ensures var s' := Next(s, l); var advances := |s'.writes| - |s.writes|;
      && s'.latestKnown.Some? && s'.history.Valid()
      && 0 <= advances && s'.history.at == s.history.at + advances
      && s'.history.entries[..s.history.at + 1] == s.history.entries[..s.history.at + 1]
  {
    hide Rank, Ordered;
  }

  // ---------- The heartbeat ----------

  /** The tab's poll reaches the server in this step. */
  predicate IsHeartbeat(s: State, l: Label) {
    l.Tabs? && (s.tab.Asked? || s.tab.BootAsked?)
  }

  /** The step that noted the last poll, if there was one. */
  function LastHeartbeat(states: seq<State>, labels: seq<Label>, k: nat): Option<nat>
    requires |states| == |labels| + 1 && k <= |labels|
  {
    if k == 0 then None
    else if IsHeartbeat(states[k - 1], labels[k - 1]) then Some(k - 1)
    else LastHeartbeat(states, labels, k - 1)
  }

  lemma {:induction false} LastPollIsLastHeartbeat(states: seq<State>, labels: seq<Label>, k: nat)
    requires IsRun(states, labels) && k < |states|
    ensures var h := LastHeartbeat(states, labels, k);
      && (h.Some? ==> h.value < k && IsHeartbeat(states[h.value], labels[h.value]))
      && states[k].lastPoll == (if h.None? then None else Some(states[h.value].now))
    decreases k
  {
    if k > 0 {
      LastPollIsLastHeartbeat(states, labels, k - 1);
      assert states[k] == Next(states[k - 1], labels[k - 1]);
    }
  }

  lemma {:induction false} HeartbeatsAreNoLater(states: seq<State>, labels: seq<Label>, j: nat, k: nat)
    requires IsRun(states, labels) && j < k < |states| && IsHeartbeat(states[j], labels[j])
    ensures states[k].lastPoll.Some? && states[j].now <= states[k].lastPoll.value <= states[k].now
    decreases k
  {
    assert states[k] == Next(states[k - 1], labels[k - 1]);
    if j < k - 1 {
      HeartbeatsAreNoLater(states, labels, j, k - 1);
    }
  }

  /** A registration asks for a browser exactly when no poll was noted within the window. */
  lemma OpensExactlyWhenNoTabPolls(states: seq<State>, labels: seq<Label>, k: nat)
    requires IsRun(states, labels) && k < |states|
    ensures ShouldOpen(states[k]) <==>
              forall j :: 0 <= j < k && IsHeartbeat(states[j], labels[j]) ==> states[k].now - states[j].now > TAB_ALIVE_WINDOW
  {
    assert |states| == |labels| + 1;
    hide IsRun, LastHeartbeat;
    LastPollIsLastHeartbeat(states, labels, k);
    forall j | 0 <= j < k && IsHeartbeat(states[j], labels[j])
      ensures states[k].lastPoll.Some? && states[j].now <= states[k].lastPoll.value
    {
      HeartbeatsAreNoLater(states, labels, j, k);
    }
  }

  // ---------- What a registration answers ----------

  /** The answer of a registration, which it gives at its third lock, is whether every request for the latest plot is over five ticks old. */
  lemma AnswersExactlyWhenNoTabPolls(states: seq<State>, labels: seq<Label>, k: nat, i: nat)
    requires IsRun(states, labels) && k < |labels| && labels[k] == Register(i)
    requires i < |states[k].registrations| && states[k].registrations[i].at.Stored?
    ensures i < |states[k + 1].registrations| && states[k + 1].registrations[i].at.Registered?
    ensures states[k + 1].registrations[i].at.shouldOpen <==>
              forall j :: 0 <= j < k && labels[j].Tabs? && (states[j].tab.Asked? || states[j].tab.BootAsked?) ==>
                states[k].now - states[j].now > 5
  {
    assert states[k + 1] == Next(states[k], labels[k]) && |states| == |labels| + 1;
    hide IsRun;
    OpensExactlyWhenNoTabPolls(states, labels, k);
  }

  /** How often registration `i` has come to take a lock. */
  function Turns(labels: seq<Label>, k: nat, i: nat): nat
    requires k <= |labels|
  {
    if k == 0 then 0 else Turns(labels, k - 1, i) + (if labels[k - 1] == Register(i) then 1 else 0)
  }

  function Stage(at: Progress): nat {
    match at
    case Waiting => 0
    case Inserted => 1
    case Stored => 2
    case Registered(_) => 3
  }

  /** A registration takes its three locks in turn, whatever happens in between, and then is over. */
  lemma {:induction false} LocksAreTakenInTurn(states: seq<State>, labels: seq<Label>, k: nat, i: nat)
    requires IsRun(states, labels) && k < |states| && i < |states[0].registrations|
    ensures |states[k].registrations| == |states[0].registrations|
    ensures Stage(states[k].registrations[i].at) == Turns(labels, k, i) <= 3
    decreases k
  {
    if k > 0 {
      LocksAreTakenInTurn(states, labels, k - 1, i);
      assert states[k] == Next(states[k - 1], labels[k - 1]);
    }
  }

  /** What was answered stays answered. */
  lemma {:induction false} AnswersAreFinal(states: seq<State>, labels: seq<Label>, a: nat, b: nat, i: nat)
    requires IsRun(states, labels) && a <= b < |states|
    requires i < |states[a].registrations| && states[a].registrations[i].at.Registered?
    ensures i < |states[b].registrations| && states[b].registrations[i] == states[a].registrations[i]
    decreases b
  {
    if a < b {
      AnswersAreFinal(states, labels, a, b - 1, i);
      assert states[b] == Next(states[b - 1], labels[b - 1]);
    }
  }

  // ---------- The clock, start-up and rest ----------

  function Seconds(labels: seq<Label>, k: nat): nat
    requires k <= |labels|
  {
    if k == 0 then 0 else Seconds(labels, k - 1) + (if labels[k - 1].Second? then 1 else 0)
  }

  lemma {:induction false} ClockCountsSeconds(states: seq<State>, labels: seq<Label>, k: nat)
    requires IsRun(states, labels) && k < |states|
    ensures states[k].now == states[0].now + Seconds(labels, k)
    decreases k
  {
    if k > 0 {
      ClockCountsSeconds(states, labels, k - 1);
      assert states[k] == Next(states[k - 1], labels[k - 1]);
    }
  }

  /** At start-up the tab asks for the latest plot exactly when its address names none; an old address takes the new form. */
  lemma StartUpFollowsLocation(states: seq<State>, labels: seq<Label>, k: nat)
    requires IsRun(states, labels) && k < |labels| && labels[k].Tabs? && states[k].tab.Booting?
    ensures var s, s' := states[k], states[k + 1];
      && s.history.Valid() && s'.history.Valid() && (s'.tab.BootAsked? <==> s.history.Shown() == Bare)
      && (s'.tab.Resting? <==> s.history.Shown() != Bare)
      && s'.history.at == s.history.at && |s'.history.entries| == |s.history.entries|
      && (forall j :: 0 <= j < |s.history.entries| && j != s.history.at ==> s'.history.entries[j] == s.history.entries[j])
      && s'.history.Shown() == if s.history.Shown().Legacy? then Hashed(s.history.Shown().id) else s.history.Shown()
  {
    assert states[k + 1] == Next(states[k], labels[k]);
  }

  /** A tab at rest polls again: four of its own steps without a failure bring it up to date and to rest, its heartbeat noted. */
  lemma RestEndsInPoll(s: State)
    requires ServerGood(s) && TabGood(s) && s.tab.Resting?
    ensures var s1 := TabNext(s); s1.history.Valid() && var s2 := TabNext(s1); s2.history.Valid() && var s3 := TabNext(s2);
      s3.history.Valid() && var s4 := TabNext(s3);
      && s4.tab.Resting? && UpToDate(s4) && s4.latest == s.latest && s4.lastPoll == Some(s.now)
  {
  }
}
