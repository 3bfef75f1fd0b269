/** What the network events of one scrape say about whether its page finished loading. The tracker
    is the program's own state; the declarative reading below it looks only at the events. */
module PageLoad {
  import opened Wrappers
  import opened Sequences
  import Diagnostics

  type Id = string

  /** In milliseconds. */
  const StalledAfter: nat := 10_000
  const MaxTracked: nat := 4096
  const MaxListed: nat := 5
  const MaxUrlChars: nat := 120

  datatype ResourceType = Document | Script | Stylesheet | Xhr | Fetch | Image | Font | Media | Other

  datatype Kind = Asset | Data

  function KindOf(t: ResourceType): Option<(Kind, string)> {
    match t
    case Script => Some((Asset, "Script"))
    case Stylesheet => Some((Asset, "Stylesheet"))
    case Xhr => Some((Data, "XHR"))
    case Fetch => Some((Data, "Fetch"))
    case _ => None
  }

  function Tracked(t: Option<ResourceType>): Option<(Kind, string)> {
    if t.Some? then KindOf(t.value) else None
  }

  datatype Outcome =
    | Pending
    | Status(status: nat)
    | Failure(errorText: string, canceled: bool, blockedByUs: bool, cors: bool)

  datatype Load = Load(url: string, typeLabel: string, kind: Kind, started: nat, responded: Option<nat>, outcome: Outcome)

  datatype Event =
    | WillBeSent(id: Id, url: string, resourceType: Option<ResourceType>, isMainDocument: bool, at: nat)
    | LoadEvent
    | Response(id: Id, status: nat)
    | Finished(id: Id)
    | Failed(id: Id, errorText: string, canceled: bool, blockedByUs: bool, cors: bool)

  datatype State = State(loads: map<Id, Load>, mainDocument: Option<Id>, lastDocument: Option<Id>, loadFired: bool)

  function Start(): State { State(map[], None, None, false) }

  predicate IsRefusal(status: nat) { status == 403 || status == 429 }

  function Apply(s: State, e: Event): State {
    match e
    case WillBeSent(id, url, resourceType, true, at) =>
      State(if s.lastDocument.Some? && s.lastDocument.value != id then map[] else s.loads,
            Some(id), Some(id),
            if s.lastDocument != Some(id) then false else s.loadFired)
    case WillBeSent(id, url, resourceType, false, at) =>
      if Tracked(resourceType).None? then s
      else if id in s.loads then s.(loads := s.loads[id := s.loads[id].(url := url)])
      else if |s.loads| >= MaxTracked then s
      else s.(loads := s.loads[id := NewLoad(e)])
    case LoadEvent => s.(loadFired := true)
    case Response(id, status) =>
      if id in s.loads then s.(loads := s.loads[id := Responded(s.loads[id], status)]) else s
    case Finished(id) =>
      var main := if s.mainDocument == Some(id) then None else s.mainDocument;
      s.(mainDocument := main,
         loads := if id in s.loads && s.loads[id].outcome == Pending then s.loads - {id} else s.loads)
    case Failed(id, _, _, _, _) =>
      var main := if s.mainDocument == Some(id) then None else s.mainDocument;
      s.(mainDocument := main,
         loads := if id in s.loads then s.loads[id := s.loads[id].(outcome := OutcomeOf(e))] else s.loads)
  }

  function NewLoad(e: Event): Load
    requires e.WillBeSent? && Tracked(e.resourceType).Some?
  {
    var (kind, typeLabel) := Tracked(e.resourceType).value;
    Load(e.url, typeLabel, kind, e.at, None, Pending)
  }

  function Responded(load: Load, status: nat): Load {
    var answered := load.(responded := Some(status));
    if IsRefusal(status) then answered.(outcome := Status(status)) else answered
  }

  function OutcomeOf(e: Event): Outcome {
    match e
    case Response(_, status) => Status(status)
    case Failed(_, errorText, canceled, blockedByUs, cors) => Failure(errorText, canceled, blockedByUs, cors)
    case _ => Pending
  }

  // ----- judging a load -----

  predicate Contains(s: string, part: string) {
    exists i: nat :: i <= |s| && HoldsAt(s, part, i)
  }

  predicate HoldsAt(s: string, part: string, i: nat) { i + |part| <= |s| && s[i..i + |part|] == part }

  predicate ContainsAny(s: string, parts: seq<string>) {
    exists i :: 0 <= i < |parts| && Contains(s, parts[i])
  }

  const TransportErrors: seq<string> := [
    "ERR_TIMED_OUT", "ERR_CONNECTION_TIMED_OUT", "ERR_CONNECTION_RESET", "ERR_CONNECTION_CLOSED",
    "ERR_CONNECTION_ABORTED", "ERR_EMPTY_RESPONSE", "ERR_HTTP2_", "ERR_QUIC_PROTOCOL_ERROR",
    "ERR_INCOMPLETE_CHUNKED_ENCODING", "ERR_CONTENT_LENGTH_MISMATCH"]

  const CrossOriginBlocks: seq<string> := ["ERR_BLOCKED_BY_ORB", "ERR_BLOCKED_BY_RESPONSE"]

  function WithoutNet(s: string): string {
    if |s| >= 5 && s[..5] == "net::" then WithoutNet(s[5..]) else s
  }

  function Judge(load: Load, sameSite: string -> bool, now: nat): Option<string> {
    if load.kind == Data && !sameSite(load.url) then None
    else
      match load.outcome
      case Pending =>
        var age := if now >= load.started then now - load.started else 0;
        if age < StalledAfter then None
        else
          var pending := "pending " + Diagnostics.Digits(age / 1000) + "s";
          Some(if load.responded.Some? then pending + ", HTTP " + Diagnostics.Digits(load.responded.value) + " body" else pending)
      case Status(status) => Some("HTTP " + Diagnostics.Digits(status))
      case Failure(errorText, canceled, blockedByUs, cors) =>
        if canceled || blockedByUs || Contains(errorText, "ERR_ABORTED") then None
        else if cors then Some("CORS " + WithoutNet(errorText))
        else if ContainsAny(errorText, CrossOriginBlocks) || ContainsAny(errorText, TransportErrors) then
          Some(WithoutNet(errorText))
        else None
  }

  function UpToQuery(url: string): string {
    if url == [] || url[0] == '?' || url[0] == '#' then [] else [url[0]] + UpToQuery(url[1..])
  }

  function ShortUrl(url: string): string {
    var base := UpToQuery(url);
    if |base| <= MaxUrlChars then base else base[..MaxUrlChars] + "\U{2026}"
  }

  function MarkerText(load: Load, reason: string): string { load.typeLabel + " " + reason + " " + ShortUrl(load.url) }

  function DocumentMarker(s: State): seq<string> {
    if s.mainDocument.Some? then ["main document still loading"]
    else if s.lastDocument.Some? && !s.loadFired then ["load event never fired"]
    else []
  }

  /** One line of the verdict, with the time it is sorted by. */
  datatype Marker = Marker(id: Id, started: nat, text: string)

  predicate Earlier(a: Marker, b: Marker) { a.started < b.started }

  /** `m` is the line of one of the loads of `ids`. */
  ghost predicate Lists(loads: map<Id, Load>, ids: set<Id>, sameSite: string -> bool, now: nat, m: Marker) {
    && m.id in ids && m.id in loads && Judge(loads[m.id], sameSite, now).Some?
    && m == MarkerOf(m.id, loads[m.id], Judge(loads[m.id], sameSite, now).value)
  }

  /** Every load of `ids` that is a marker, once. */
  ghost predicate ListsAll(loads: map<Id, Load>, ids: set<Id>, sameSite: string -> bool, now: nat, markers: seq<Marker>) {
    Distinct(markers) && forall m :: m in markers <==> Lists(loads, ids, sameSite, now, m)
  }

  /** The document's marker leads, the loads follow by start time, and only the first few are spelt
      out. */
  ghost predicate IsVerdict(s: State, sameSite: string -> bool, now: nat, markers: seq<Marker>, listed: seq<string>, total: nat) {
    && InOrder(markers, Earlier) && ListsAll(s.loads, s.loads.Keys, sameSite, now, markers)
    && listed <= DocumentMarker(s) + TextsOf(markers) && |listed| == (if total < 5 then total else 5)
    && total == |DocumentMarker(s)| + |markers|
  }

  lemma ListOneMore(loads: map<Id, Load>, ids: set<Id>, sameSite: string -> bool, now: nat, markers: seq<Marker>, id: Id)
    requires ListsAll(loads, ids, sameSite, now, markers) && id in loads && id !in ids
    ensures var reason := Judge(loads[id], sameSite, now);
            ListsAll(loads, ids + {id}, sameSite, now,
                     if reason.Some? then markers + [MarkerOf(id, loads[id], reason.value)] else markers)
  {
    forall m | m in markers ensures m.id in ids {
      assert Lists(loads, ids, sameSite, now, m);
    }
  }

  function MarkerOf(id: Id, load: Load, reason: string): Marker { Marker(id, load.started, MarkerText(load, reason)) }

  function TextsOf(markers: seq<Marker>): seq<string> {
    seq(|markers|, i requires 0 <= i < |markers| => markers[i].text)
  }

  lemma EarlierIsAnOrder()
    ensures IsWeakOrder(Earlier)
  {
  }

  class PageLoadTracker {
    const isSameSite: string -> bool
    var loads: map<Id, Load>
    var mainDocument: Option<Id>
    var lastDocument: Option<Id>
    var loadFired: bool

    ghost function View(): State
      reads this
    {
      State(loads, mainDocument, lastDocument, loadFired)
    }

    constructor (isSameSite: string -> bool)
      ensures this.isSameSite == isSameSite && View() == Start()
    {
      this.isSameSite := isSameSite;
      loads := map[];
      mainDocument, lastDocument := None, None;
      loadFired := false;
    }

    method WillBeSent(id: Id, url: string, resourceType: Option<ResourceType>, isMainDocument: bool, now: nat)
      modifies this
      ensures View() == Apply(old(View()), Event.WillBeSent(id, url, resourceType, isMainDocument, now))
    {
      if isMainDocument {
        if lastDocument.Some? && lastDocument.value != id { loads := map[]; }
        if lastDocument != Some(id) { loadFired := false; }
        lastDocument := Some(id);
        mainDocument := Some(id);
        return;
      }
      if Tracked(resourceType).None? { return; }
      if id in loads {
        loads := loads[id := loads[id].(url := url)];
        return;
      }
      if |loads| >= MaxTracked { return; }
      var (kind, typeLabel) := Tracked(resourceType).value;
      loads := loads[id := Load(url, typeLabel, kind, now, None, Pending)];
    }

    method LoadEvent()
      modifies this
      ensures View() == Apply(old(View()), Event.LoadEvent)
    {
      loadFired := true;
    }

    method Response(id: Id, status: nat)
      modifies this
      ensures View() == Apply(old(View()), Event.Response(id, status))
    {
      if id in loads {
        loads := loads[id := loads[id].(responded := Some(status))];
        if status == 403 || status == 429 {
          loads := loads[id := loads[id].(outcome := Status(status))];
        }
      }
    }

    method Finished(id: Id)
      modifies this
      ensures View() == Apply(old(View()), Event.Finished(id))
    {
      if mainDocument == Some(id) { mainDocument := None; }
      if id in loads {
        if loads[id].outcome == Pending { loads := loads - {id}; }
      }
    }

    method Failed(id: Id, errorText: string, canceled: bool, blockedByUs: bool, cors: bool)
      modifies this
      ensures View() == Apply(old(View()), Event.Failed(id, errorText, canceled, blockedByUs, cors))
    {
      if mainDocument == Some(id) { mainDocument := None; }
      if id in loads {
        loads := loads[id := loads[id].(outcome := Failure(errorText, canceled, blockedByUs, cors))];
      }
    }

    /** Walks the loads in whatever order the map yields them, then sorts by start time. */
    method Verdict(now: nat) returns (listed: seq<string>, total: nat)
      ensures exists markers :: IsVerdict(View(), isSameSite, now, markers, listed, total)
    {
      var found: seq<Marker> := [];
      var todo := loads.Keys;
      while todo != {}
        invariant todo <= loads.Keys
        invariant ListsAll(loads, loads.Keys - todo, isSameSite, now, found)
        decreases |todo|
      {
        var id :| id in todo;
        ListOneMore(loads, loads.Keys - todo, isSameSite, now, found, id);
        assert loads.Keys - (todo - {id}) == (loads.Keys - todo) + {id};
        todo := todo - {id};
        var reason := Judge(loads[id], isSameSite, now);
        if reason.Some? { found := found + [MarkerOf(id, loads[id], reason.value)]; }
      }
      assert loads.Keys - todo == loads.Keys;
      var markers := Sorted(found, Earlier);
      SortedListing(found, markers);
      var document := DocumentMarker(State(loads, mainDocument, lastDocument, loadFired));
      var all := document + TextsOf(markers);
      total := |all|;
      listed := FirstOf(all, MaxListed);
      assert IsVerdict(View(), isSameSite, now, markers, listed, total);
    }
  }

  lemma SortedListing(found: seq<Marker>, markers: seq<Marker>)
    requires markers == Sorted(found, Earlier) && Distinct(found)
    ensures InOrder(markers, Earlier) && Distinct(markers) && forall m :: m in markers <==> m in found
  {
    EarlierIsAnOrder();
    SortedKeepsAll(found, Earlier);
    SortedIsInOrder(found, Earlier);
    ReorderedKeepsDistinct(found, markers);
  }

  function Run(events: seq<Event>): State {
    if events == [] then Start() else Apply(Run(events[..|events| - 1]), events[|events| - 1])
  }

  // ----- the declarative reading -----

  /** A script, a stylesheet or data goes out. Nothing else is a load: no document, image or font, and
      no request without a type. */
  predicate IsSend(e: Event, x: Id) {
    && e.WillBeSent? && e.id == x && !e.isMainDocument
    && e.resourceType in {Some(Script), Some(Stylesheet), Some(Xhr), Some(Fetch)}
  }

  /** The load went wrong. */
  predicate IsBad(e: Event, x: Id) {
    (e.Response? && e.id == x && (e.status == 403 || e.status == 429)) || (e.Failed? && e.id == x)
  }

  predicate IsFinish(e: Event, x: Id) { e == Finished(x) }

  predicate IsResponse(e: Event, x: Id) { e.Response? && e.id == x }

  ghost predicate BadAfterSend(events: seq<Event>, x: Id, i: nat, j: nat) {
    && i < j < |events| && IsSend(events[i], x) && IsBad(events[j], x)
    && forall k :: i < k < j ==> !IsFinish(events[k], x)
  }

  /** It was sent and went wrong before it finished: nothing that follows makes up for that. */
  ghost predicate Stuck(events: seq<Event>, x: Id) {
    exists i: nat, j: nat :: BadAfterSend(events, x, i, j)
  }

  /** It finished, and nothing was wrong with it. */
  ghost predicate CleanFinish(events: seq<Event>, x: Id, k: nat) {
    k < |events| && IsFinish(events[k], x) && !Stuck(events[..k], x)
  }

  ghost predicate CleanSince(events: seq<Event>, x: Id, i: nat) {
    exists k: nat :: i < k && CleanFinish(events, x, k)
  }

  /** The send that the open load of `x` began with: the first one after its last clean finish. */
  ghost predicate Birth(events: seq<Event>, x: Id, i: nat) {
    && i < |events| && IsSend(events[i], x) && !CleanSince(events, x, i)
    && forall j :: 0 <= j < i && IsSend(events[j], x) ==> CleanSince(events[..i], x, j)
  }

  ghost predicate NoneAfter(events: seq<Event>, i: nat, fits: (Event, Id) -> bool, x: Id) {
    forall j :: i < j < |events| ==> !fits(events[j], x)
  }

  ghost predicate LastAfter(events: seq<Event>, i: nat, fits: (Event, Id) -> bool, x: Id, j: nat) {
    i < j < |events| && fits(events[j], x) && NoneAfter(events, j, fits, x)
  }

  /** Read off the events alone: no open load, or this one. It keeps the type and the start of its
      first send, the address of its last, and the last thing that went wrong with it. */
  ghost predicate Reads(events: seq<Event>, x: Id, load: Option<Load>) {
    match load
    case None => forall i :: 0 <= i < |events| && IsSend(events[i], x) ==> CleanSince(events, x, i)
    case Some(l) => exists i: nat :: Birth(events, x, i) && Describes(events, x, i, l)
  }

  predicate IsLabel(t: ResourceType, typeLabel: string) {
    match t
    case Script => typeLabel == "Script"
    case Stylesheet => typeLabel == "Stylesheet"
    case Xhr => typeLabel == "XHR"
    case Fetch => typeLabel == "Fetch"
    case _ => false
  }

  predicate IsOfType(l: Load, t: ResourceType) {
    (l.kind == Asset <==> t in {Script, Stylesheet}) && IsLabel(t, l.typeLabel)
  }

  ghost predicate Describes(events: seq<Event>, x: Id, i: nat, l: Load)
    requires i < |events| && IsSend(events[i], x)
  {
    && IsOfType(l, events[i].resourceType.value) && l.started == events[i].at
    && AddressIs(events, x, i, l.url) && OutcomeIs(events, x, i, l.outcome) && HeadersAre(events, x, i, l.responded)
  }

  ghost predicate AddressIs(events: seq<Event>, x: Id, i: nat, url: string)
    requires i < |events| && IsSend(events[i], x)
  {
    if NoneAfter(events, i, IsSend, x) then url == events[i].url
    else exists j: nat :: LastAfter(events, i, IsSend, x, j) && url == events[j].url
  }

  ghost predicate OutcomeIs(events: seq<Event>, x: Id, i: nat, outcome: Outcome) {
    if NoneAfter(events, i, IsBad, x) then outcome == Pending
    else exists j: nat :: LastAfter(events, i, IsBad, x, j) && outcome == OutcomeOf(events[j])
  }

  ghost predicate HeadersAre(events: seq<Event>, x: Id, i: nat, responded: Option<nat>) {
    if NoneAfter(events, i, IsResponse, x) then responded == None
    else exists j: nat :: LastAfter(events, i, IsResponse, x, j) && responded == Some(events[j].status)
  }

  // ----- one load under one event -----

  /** What the tracker keeps for `x`. */
  function Kept(o: Option<Load>, e: Event, x: Id): Option<Load> {
    if IsSend(e, x) then Some(if o.Some? then o.value.(url := e.url) else NewLoad(e))
    else
      match o
      case None => None
      case Some(load) =>
        if e.Response? && e.id == x then Some(Responded(load, e.status))
        else if e.Failed? && e.id == x then Some(load.(outcome := OutcomeOf(e)))
        else if e == Finished(x) && load.outcome == Pending then None
        else o
  }

  ghost predicate Agrees(events: seq<Event>, x: Id, o: Option<Load>) {
    Reads(events, x, o) && (Stuck(events, x) <==> o.Some? && o.value.outcome != Pending)
  }

  lemma StuckStays(events: seq<Event>, more: seq<Event>, x: Id)
    requires Stuck(events, x)
    ensures Stuck(events + more, x)
  {
    var i: nat, j: nat :| BadAfterSend(events, x, i, j);
    assert BadAfterSend(events + more, x, i, j);
  }

  lemma StuckPrefix(events: seq<Event>, k: nat, x: Id)
    requires k <= |events|
    ensures Stuck(events[..k], x) ==> Stuck(events, x)
  {
    if Stuck(events[..k], x) {
      assert events[..k] + events[k..] == events;
      StuckStays(events[..k], events[k..], x);
    }
  }

  lemma StuckStep(events: seq<Event>, e: Event, x: Id)
    ensures Stuck(events + [e], x) <==>
              || Stuck(events, x)
              || (IsBad(e, x) && exists i: nat :: i < |events| && IsSend(events[i], x) && NoneAfter(events, i, IsFinish, x))
  {
    var longer := events + [e];
    if Stuck(events, x) { StuckStays(events, [e], x); }
    if Stuck(longer, x) && !Stuck(events, x) {
      var i: nat, j: nat :| BadAfterSend(longer, x, i, j);
      forall k | i < k < j ensures !IsFinish(events[k], x) {
        assert longer[k] == events[k];
      }
      assert j < |events| ==> BadAfterSend(events, x, i, j);
      assert j == |events| && NoneAfter(events, i, IsFinish, x);
    }
    if i: nat :| IsBad(e, x) && i < |events| && IsSend(events[i], x) && NoneAfter(events, i, IsFinish, x) {
      assert BadAfterSend(longer, x, i, |events|);
    }
  }

  lemma CleanStep(events: seq<Event>, e: Event, x: Id, i: nat)
    requires i < |events|
    ensures CleanSince(events + [e], x, i) <==> CleanSince(events, x, i) || (IsFinish(e, x) && !Stuck(events, x))
  {
    var longer := events + [e];
    forall k: nat | k < |events| ensures CleanFinish(longer, x, k) <==> CleanFinish(events, x, k) {
      assert longer[..k] == events[..k];
    }
    assert longer[..|events|] == events;
    assert CleanFinish(longer, x, |events|) <==> IsFinish(e, x) && !Stuck(events, x);
  }

  /** Without a clean finish after it, a send of a load that is not stuck has no finish after it. */
  lemma NoFinishAfterBirth(events: seq<Event>, x: Id, i: nat)
    requires i < |events| && !CleanSince(events, x, i) && !Stuck(events, x)
    ensures NoneAfter(events, i, IsFinish, x)
  {
    forall k | i < k < |events| ensures !IsFinish(events[k], x) {
      StuckPrefix(events, k, x);
      assert !CleanFinish(events, x, k);
    }
  }

  lemma LastStep(events: seq<Event>, e: Event, i: nat, fits: (Event, Id) -> bool, x: Id)
    requires i < |events|
    ensures fits(e, x) ==>
              LastAfter(events + [e], i, fits, x, |events|) && !NoneAfter(events + [e], i, fits, x)
    ensures !fits(e, x) ==>
              && (NoneAfter(events + [e], i, fits, x) <==> NoneAfter(events, i, fits, x))
              && forall j: nat :: LastAfter(events, i, fits, x, j) ==> LastAfter(events + [e], i, fits, x, j)
  {
    var longer := events + [e];
    assert longer[|events|] == e;
    if !fits(e, x) && NoneAfter(events, i, fits, x) {
      forall j | i < j < |longer| ensures !fits(longer[j], x) {
        if j < |events| { assert longer[j] == events[j]; }
      }
    }
    if !fits(e, x) && NoneAfter(longer, i, fits, x) {
      forall j | i < j < |events| ensures !fits(events[j], x) {
        assert longer[j] == events[j];
      }
    }
    if !fits(e, x) {
      forall j: nat | LastAfter(events, i, fits, x, j) ensures LastAfter(longer, i, fits, x, j) {
        forall k | j < k < |longer| ensures !fits(longer[k], x) {
          if k < |events| { assert longer[k] == events[k]; }
        }
      }
    }
  }

  lemma AddressStep(events: seq<Event>, e: Event, x: Id, i: nat, url: string)
    requires i < |events| && IsSend(events[i], x) && AddressIs(events, x, i, url)
    ensures AddressIs(events + [e], x, i, if IsSend(e, x) then e.url else url)
  {
    LastStep(events, e, i, IsSend, x);
    assert (events + [e])[|events|] == e;
  }

  lemma OutcomeStep(events: seq<Event>, e: Event, x: Id, i: nat, outcome: Outcome)
    requires i < |events| && OutcomeIs(events, x, i, outcome)
    ensures OutcomeIs(events + [e], x, i, if IsBad(e, x) then OutcomeOf(e) else outcome)
  {
    LastStep(events, e, i, IsBad, x);
    assert (events + [e])[|events|] == e;
  }

  lemma HeadersStep(events: seq<Event>, e: Event, x: Id, i: nat, responded: Option<nat>)
    requires i < |events| && HeadersAre(events, x, i, responded)
    ensures HeadersAre(events + [e], x, i, if IsResponse(e, x) then Some(e.status) else responded)
  {
    LastStep(events, e, i, IsResponse, x);
    assert (events + [e])[|events|] == e;
  }

  lemma DescribesStep(events: seq<Event>, e: Event, x: Id, i: nat, load: Load)
    requires i < |events| && IsSend(events[i], x) && Describes(events, x, i, load)
    ensures Kept(Some(load), e, x).Some? ==> Describes(events + [e], x, i, Kept(Some(load), e, x).value)
  {
    AddressStep(events, e, x, i, load.url);
    OutcomeStep(events, e, x, i, load.outcome);
    HeadersStep(events, e, x, i, load.responded);
    assert (events + [e])[i] == events[i];
  }

  lemma BirthStep(events: seq<Event>, e: Event, x: Id, i: nat)
    requires Birth(events, x, i) && !(IsFinish(e, x) && !Stuck(events, x))
    ensures Birth(events + [e], x, i)
  {
    CleanStep(events, e, x, i);
    assert (events + [e])[..i] == events[..i];
  }

  lemma OpenLoadReads(events: seq<Event>, e: Event, x: Id, load: Load)
    requires Agrees(events, x, Some(load)) && !(IsFinish(e, x) && load.outcome == Pending)
    ensures Reads(events + [e], x, Kept(Some(load), e, x))
  {
    var i: nat :| Birth(events, x, i) && Describes(events, x, i, load);
    BirthStep(events, e, x, i);
    DescribesStep(events, e, x, i, load);
    var kept := Kept(Some(load), e, x).value;
    assert Birth(events + [e], x, i) && Describes(events + [e], x, i, kept);
  }

  lemma OpenLoadStep(events: seq<Event>, e: Event, x: Id, load: Load)
    requires Agrees(events, x, Some(load)) && !(IsFinish(e, x) && load.outcome == Pending)
    ensures Agrees(events + [e], x, Kept(Some(load), e, x))
  {
    OpenLoadReads(events, e, x, load);
    StuckStep(events, e, x);
    if IsBad(e, x) && !Stuck(events, x) {
      var i: nat :| Birth(events, x, i);
      NoFinishAfterBirth(events, x, i);
    }
  }

  lemma CleanFinishStep(events: seq<Event>, e: Event, x: Id, load: Load)
    requires Agrees(events, x, Some(load)) && IsFinish(e, x) && load.outcome == Pending
    ensures Agrees(events + [e], x, None)
  {
    StuckStep(events, e, x);
    forall i: nat | i < |events + [e]| && IsSend((events + [e])[i], x) ensures CleanSince(events + [e], x, i) {
      CleanStep(events, e, x, i);
    }
  }

  lemma NoLoadStep(events: seq<Event>, e: Event, x: Id)
    requires Agrees(events, x, None) && !IsSend(e, x)
    ensures Agrees(events + [e], x, None)
  {
    StuckStep(events, e, x);
    forall i: nat | i < |events| && IsSend(events[i], x) ensures !NoneAfter(events, i, IsFinish, x) {
      var k: nat :| i < k && CleanFinish(events, x, k);
    }
    forall i: nat | i < |events + [e]| && IsSend((events + [e])[i], x) ensures CleanSince(events + [e], x, i) {
      CleanStep(events, e, x, i);
    }
  }

  lemma NewLoadStep(events: seq<Event>, e: Event, x: Id)
    requires Agrees(events, x, None) && IsSend(e, x)
    ensures Agrees(events + [e], x, Some(NewLoad(e)))
  {
    var longer := events + [e];
    StuckStep(events, e, x);
    assert longer[..|events|] == events && longer[|events|] == e;
    assert !CleanSince(longer, x, |events|);
    assert Birth(longer, x, |events|);
    assert Describes(longer, x, |events|, NewLoad(e));
  }

  /** Whatever happens, what is kept for `x` is what the events say about it. */
  lemma LoadStep(events: seq<Event>, e: Event, x: Id, o: Option<Load>)
    requires Agrees(events, x, o)
    ensures Agrees(events + [e], x, Kept(o, e, x))
  {
    match o
    case None => if IsSend(e, x) { NewLoadStep(events, e, x); } else { NoLoadStep(events, e, x); }
    case Some(load) =>
      if IsFinish(e, x) && load.outcome == Pending {
        CleanFinishStep(events, e, x, load);
      } else {
        OpenLoadStep(events, e, x, load);
      }
  }

  /** The events leave no choice. */
  lemma ReadingIsUnique(events: seq<Event>, x: Id, a: Option<Load>, b: Option<Load>)
    requires Reads(events, x, a) && Reads(events, x, b)
    ensures a == b
  {
    if a.Some? && b.Some? {
      var i: nat :| Birth(events, x, i) && Describes(events, x, i, a.value);
      var j: nat :| Birth(events, x, j) && Describes(events, x, j, b.value);
      OneBirth(events, x, i, j);
      OneBirth(events, x, j, i);
      assert i == j;
      DescribedOnce(events, x, i, a.value, b.value);
    }
  }

  lemma OneType(a: Load, b: Load, t: ResourceType)
    requires IsOfType(a, t) && IsOfType(b, t)
    ensures a.kind == b.kind && a.typeLabel == b.typeLabel
  {
  }

  lemma DescribedOnce(events: seq<Event>, x: Id, i: nat, a: Load, b: Load)
    requires i < |events| && IsSend(events[i], x) && Describes(events, x, i, a) && Describes(events, x, i, b)
    ensures a == b
  {
    OneType(a, b, events[i].resourceType.value);
    OneLast(events, i, IsSend, x);
    OneLast(events, i, IsBad, x);
    OneLast(events, i, IsResponse, x);
  }

  lemma OneBirth(events: seq<Event>, x: Id, i: nat, j: nat)
    requires Birth(events, x, i) && Birth(events, x, j)
    ensures i <= j
  {
    if j < i {
      assert CleanSince(events[..i], x, j);
      var k: nat :| j < k && CleanFinish(events[..i], x, k);
      assert events[..i][..k] == events[..k];
      assert CleanFinish(events, x, k);
      assert false;
    }
  }

  lemma OneLast(events: seq<Event>, i: nat, fits: (Event, Id) -> bool, x: Id)
    ensures forall j: nat, k: nat :: LastAfter(events, i, fits, x, j) && LastAfter(events, i, fits, x, k) ==> j == k
  {
  }

  // ----- the page that is judged -----

  function LastDocument(events: seq<Event>): Option<Id> {
    if events == [] then None
    else
      var e := events[|events| - 1];
      if e.WillBeSent? && e.isMainDocument then Some(e.id) else LastDocument(events[..|events| - 1])
  }

  predicate IsMainDocument(e: Event) { e.WillBeSent? && e.isMainDocument }

  /** The main document gets another request id than it had. */
  predicate ChangesDocument(events: seq<Event>, m: nat)
    requires m < |events|
  {
    IsMainDocument(events[m]) && LastDocument(events[..m]) != Some(events[m].id)
  }

  /** It replaces a page that was there before. */
  predicate Replaces(events: seq<Event>, m: nat)
    requires m < |events|
  {
    ChangesDocument(events, m) && LastDocument(events[..m]).Some?
  }

  /** The events since the last replacement. */
  function PageStart(events: seq<Event>): (start: nat)
    ensures start <= |events|
  {
    if events == [] then 0
    else if Replaces(events, |events| - 1) then |events|
    else PageStart(events[..|events| - 1])
  }

  function Page(events: seq<Event>): seq<Event> { events[PageStart(events)..] }

  lemma {:induction false} PageStartIsTheLastReplacement(events: seq<Event>)
    ensures var start := PageStart(events);
            && (start > 0 ==> Replaces(events, start - 1))
            && forall m :: start <= m < |events| ==> !Replaces(events, m)
  {
    if events != [] {
      var earlier := events[..|events| - 1];
      PageStartIsTheLastReplacement(earlier);
      forall m | 0 <= m < |earlier| ensures Replaces(earlier, m) == Replaces(events, m) {
        assert earlier[..m] == events[..m];
      }
    }
  }

  ghost predicate StillLoading(events: seq<Event>) {
    exists m: nat ::
      && m < |events| && IsMainDocument(events[m])
      && forall k :: m < k < |events| ==> !IsMainDocument(events[k]) && !Ends(events[k], events[m].id)
  }

  predicate Ends(e: Event, x: Id) { (e.Finished? || e.Failed?) && e.id == x }

  ghost predicate LoadFired(events: seq<Event>) {
    exists k: nat :: k < |events| && FiredFor(events, k)
  }

  ghost predicate FiredFor(events: seq<Event>, k: nat)
    requires k < |events|
  {
    events[k] == Event.LoadEvent && forall m :: k < m < |events| ==> !ChangesDocument(events, m)
  }

  function Lookup(s: State, x: Id): Option<Load> { if x in s.loads then Some(s.loads[x]) else None }

  function SentIds(events: seq<Event>): set<Id> { set e | e in events && e.WillBeSent? :: e.id }

  ghost function OpenIds(events: seq<Event>): set<Id> {
    set x | x in SentIds(events) && !Reads(events, x, None)
  }

  /** The tracker has room for every load that is sent. */
  ghost predicate HasRoom(events: seq<Event>, n: nat)
    requires n < |events|
  {
    var open := OpenIds(Page(events[..n]));
    events[n].WillBeSent? && IsSend(events[n], events[n].id) && events[n].id !in open ==> |open| < 4096
  }

  ghost predicate UnderCap(events: seq<Event>) {
    forall n: nat :: n < |events| ==> HasRoom(events, n)
  }

  // ----- the tracker reads the trace -----

  lemma {:induction false} RunKnowsTheDocument(events: seq<Event>)
    ensures Run(events).lastDocument == LastDocument(events)
    ensures Run(events).mainDocument == if StillLoading(events) then LastDocument(events) else None
  {
    if events != [] {
      var earlier, e := events[..|events| - 1], events[|events| - 1];
      assert events == earlier + [e];
      RunKnowsTheDocument(earlier);
      RunStep(earlier, e);
      if IsMainDocument(e) {
        NewDocumentIsLoading(earlier, e);
      } else {
        StillLoadingStep(earlier, e);
      }
    }
  }

  lemma RunStep(events: seq<Event>, e: Event)
    ensures Run(events + [e]) == Apply(Run(events), e)
    ensures LastDocument(events + [e]) == if IsMainDocument(e) then Some(e.id) else LastDocument(events)
  {
    assert (events + [e])[..|events|] == events;
  }

  lemma NewDocumentIsLoading(events: seq<Event>, e: Event)
    requires IsMainDocument(e)
    ensures StillLoading(events + [e])
  {
    assert (events + [e])[|events|] == e;
  }

  lemma LastDocumentIsLast(events: seq<Event>, m: nat)
    requires m < |events| && IsMainDocument(events[m])
    requires forall k :: m < k < |events| ==> !IsMainDocument(events[k])
    ensures LastDocument(events) == Some(events[m].id)
  {
    if m < |events| - 1 { LastDocumentIsLast(events[..|events| - 1], m); }
  }

  lemma StillLoadingStep(events: seq<Event>, e: Event)
    requires !IsMainDocument(e)
    ensures StillLoading(events + [e]) <==>
              StillLoading(events) && LastDocument(events).Some? && !Ends(e, LastDocument(events).value)
  {
    var longer := events + [e];
    if StillLoading(events) {
      var m: nat :| && m < |events| && IsMainDocument(events[m])
                    && forall k :: m < k < |events| ==> !IsMainDocument(events[k]) && !Ends(events[k], events[m].id);
      LastDocumentIsLast(events, m);
      if !Ends(e, events[m].id) {
        assert longer[m] == events[m];
        forall k | m < k < |longer| ensures !IsMainDocument(longer[k]) && !Ends(longer[k], longer[m].id) {
          if k < |events| { assert longer[k] == events[k]; }
        }
      }
    }
    if StillLoading(longer) {
      var m: nat :| && m < |longer| && IsMainDocument(longer[m])
                    && forall k :: m < k < |longer| ==> !IsMainDocument(longer[k]) && !Ends(longer[k], longer[m].id);
      assert m < |events| && longer[|events|] == e;
      assert events[m] == longer[m];
      forall k | m < k < |events| ensures !IsMainDocument(events[k]) && !Ends(events[k], events[m].id) {
        assert longer[k] == events[k];
      }
      LastDocumentIsLast(events, m);
    }
  }

  lemma ChangesStep(events: seq<Event>, e: Event, m: nat)
    requires m < |events|
    ensures ChangesDocument(events + [e], m) == ChangesDocument(events, m)
  {
    assert (events + [e])[..m] == events[..m];
  }

  lemma FiredStep(events: seq<Event>, e: Event, k: nat)
    requires k < |events|
    ensures FiredFor(events + [e], k) <==> FiredFor(events, k) && !ChangesDocument(events + [e], |events|)
  {
    var longer := events + [e];
    assert longer[k] == events[k];
    forall m: nat | m < |events| ensures ChangesDocument(longer, m) == ChangesDocument(events, m) {
      ChangesStep(events, e, m);
    }
    if FiredFor(longer, k) {
      forall m | k < m < |events| ensures !ChangesDocument(events, m) {
        assert !ChangesDocument(longer, m);
      }
    }
  }

  lemma LoadFiredStep(events: seq<Event>, e: Event)
    ensures LoadFired(events + [e]) <==>
              e == Event.LoadEvent || (LoadFired(events) && !ChangesDocument(events + [e], |events|))
  {
    var longer := events + [e];
    forall k: nat | k < |events|
      ensures FiredFor(longer, k) <==> FiredFor(events, k) && !ChangesDocument(longer, |events|)
    {
      FiredStep(events, e, k);
    }
    assert FiredFor(longer, |events|) <==> e == Event.LoadEvent;
  }

  lemma {:induction false} RunKnowsTheLoadEvent(events: seq<Event>)
    ensures Run(events).loadFired <==> LoadFired(events)
  {
    if events != [] {
      var earlier, e := events[..|events| - 1], events[|events| - 1];
      assert events == earlier + [e];
      RunKnowsTheLoadEvent(earlier);
      RunKnowsTheDocument(earlier);
      RunStep(earlier, e);
      LoadFiredStep(earlier, e);
    }
  }

  lemma PageStep(events: seq<Event>, e: Event)
    ensures Page(events + [e]) == if Replaces(events + [e], |events|) then [] else Page(events) + [e]
  {
    assert (events + [e])[..|events|] == events;
  }

  lemma ApplyKeeps(s: State, e: Event, x: Id)
    requires !(IsMainDocument(e) && s.lastDocument.Some? && s.lastDocument.value != e.id)
    requires IsSend(e, x) && x !in s.loads ==> |s.loads| < MaxTracked
    ensures Lookup(Apply(s, e), x) == Kept(Lookup(s, x), e, x)
  {
  }

  ghost predicate Tells(s: State, events: seq<Event>) {
    forall x :: Agrees(events, x, Lookup(s, x))
  }

  lemma TellsOpenIds(s: State, events: seq<Event>)
    requires Tells(s, events)
    ensures s.loads.Keys == OpenIds(events)
  {
    forall x ensures x in s.loads <==> x in OpenIds(events) {
      assert Agrees(events, x, Lookup(s, x));
      if x in s.loads {
        var i: nat :| Birth(events, x, i);
        assert events[i] in events && !CleanSince(events, x, i);
      }
    }
  }

  lemma TellsStep(s: State, events: seq<Event>, e: Event)
    requires Tells(s, events)
    requires !(IsMainDocument(e) && s.lastDocument.Some? && s.lastDocument.value != e.id)
    requires e.WillBeSent? && IsSend(e, e.id) && e.id !in s.loads ==> |s.loads| < MaxTracked
    ensures Tells(Apply(s, e), events + [e])
  {
    forall x ensures Agrees(events + [e], x, Lookup(Apply(s, e), x)) {
      assert Agrees(events, x, Lookup(s, x));
      ApplyKeeps(s, e, x);
      LoadStep(events, e, x, Lookup(s, x));
    }
  }

  lemma EarlierUnderCap(events: seq<Event>)
    requires UnderCap(events) && events != []
    ensures UnderCap(events[..|events| - 1])
    ensures HasRoom(events[..|events| - 1] + [events[|events| - 1]], |events| - 1)
  {
    var earlier := events[..|events| - 1];
    assert earlier + [events[|events| - 1]] == events && HasRoom(events, |events| - 1);
    forall k: nat | k < |earlier| ensures HasRoom(earlier, k) {
      assert HasRoom(events, k) && earlier[..k] == events[..k];
    }
  }

  lemma {:induction false} TellsTheTrace(events: seq<Event>)
    requires UnderCap(events)
    ensures Tells(Run(events), Page(events))
  {
    if events == [] {
      NothingLoadedTells(Start());
    } else {
      var earlier, e := events[..|events| - 1], events[|events| - 1];
      EarlierUnderCap(events);
      TellsTheTrace(earlier);
      TrackerStep(earlier, e);
      assert events == earlier + [e];
    }
  }

  /** After any events, within the cap, the tracker holds exactly the open loads of the judged page,
      each as the events describe it. */
  lemma TrackerReadsTheTrace(events: seq<Event>)
    requires UnderCap(events)
    ensures Tells(Run(events), Page(events)) && Run(events).loads.Keys == OpenIds(Page(events))
  {
    TellsTheTrace(events);
    TellsOpenIds(Run(events), Page(events));
  }

  lemma LastEvent(events: seq<Event>, e: Event)
    ensures Replaces(events + [e], |events|)
       <==> IsMainDocument(e) && LastDocument(events).Some? && LastDocument(events).value != e.id
    ensures HasRoom(events + [e], |events|) && e.WillBeSent? && IsSend(e, e.id) && e.id !in OpenIds(Page(events)) ==>
              |OpenIds(Page(events))| < 4096
  {
    assert (events + [e])[..|events|] == events && (events + [e])[|events|] == e;
  }

  lemma NothingLoadedTells(s: State)
    requires s.loads == map[]
    ensures Tells(s, [])
  {
  }

  lemma TrackerStep(events: seq<Event>, e: Event)
    requires Tells(Run(events), Page(events)) && HasRoom(events + [e], |events|)
    ensures Tells(Run(events + [e]), Page(events + [e]))
  {
    var s, page := Run(events), Page(events);
    RunKnowsTheDocument(events);
    RunStep(events, e);
    PageStep(events, e);
    LastEvent(events, e);
    if Replaces(events + [e], |events|) {
      NothingLoadedTells(Apply(s, e));
    } else {
      TellsOpenIds(s, page);
      TellsStep(s, page, e);
    }
  }

  /** And the cap is the only thing in the way: the first new load beyond it is not seen. */
  lemma CapIsTheCondition(s: State, events: seq<Event>, e: Event)
    requires Tells(s, events) && e.WillBeSent? && IsSend(e, e.id) && e.id !in s.loads
    ensures Tells(Apply(s, e), events + [e]) <==> |s.loads| < 4096
  {
    forall x ensures Agrees(events + [e], x, Kept(Lookup(s, x), e, x)) {
      LoadStep(events, e, x, Lookup(s, x));
    }
    if |s.loads| < MaxTracked {
      TellsStep(s, events, e);
    } else if Tells(Apply(s, e), events + [e]) {
      assert Agrees(events + [e], e.id, Lookup(Apply(s, e), e.id));
      ReadingIsUnique(events + [e], e.id, Lookup(Apply(s, e), e.id), Kept(Lookup(s, e.id), e, e.id));
    }
  }

  // ----- forgetting -----

  lemma Regroup(a: seq<Event>, b: seq<Event>)
    requires b != []
    ensures a + b == a + b[..|b| - 1] + [b[|b| - 1]]
  {
  }

  lemma {:induction false} SameStateSameFuture(a: seq<Event>, b: seq<Event>, future: seq<Event>)
    requires Run(a) == Run(b)
    ensures Run(a + future) == Run(b + future)
    decreases |future|
  {
    if future == [] {
      assert a + future == a && b + future == b;
    } else {
      var shorter, e := future[..|future| - 1], future[|future| - 1];
      SameStateSameFuture(a, b, shorter);
      RunStep(a + shorter, e);
      RunStep(b + shorter, e);
      Regroup(a, future);
      Regroup(b, future);
    }
  }

  /** A page that replaces another owes it nothing: any two pasts leave the same tracker. */
  lemma ReplacementForgets(past: seq<Event>, other: seq<Event>, document: Event, future: seq<Event>)
    requires IsMainDocument(document)
    requires LastDocument(past).Some? && LastDocument(past).value != document.id
    requires LastDocument(other).Some? && LastDocument(other).value != document.id
    ensures Run(past + [document] + future) == Run(other + [document] + future)
  {
    RunKnowsTheDocument(past);
    RunKnowsTheDocument(other);
    RunStep(past, document);
    RunStep(other, document);
    SameStateSameFuture(past + [document], other + [document], future);
  }
}
