/** The verdict of the page-load tracker, in terms of the network events alone: which requests count
    against the page, how they are worded, and how many there are. */
module PageVerdict {
  import opened Wrappers
  import opened Sequences
  import opened PageLoad
  import Diagnostics

  // ----- what is read off the events -----

  /** `part` stands somewhere in `text`. */
  lemma ContainsIff(text: string, part: string)
    ensures Contains(text, part) <==> exists before, after :: text == before + part + after
  {
    if Contains(text, part) {
      var i: nat :| i <= |text| && HoldsAt(text, part, i);
      assert text == text[..i] + part + text[i + |part|..];
    }
    if before, after :| text == before + part + after {
      assert HoldsAt(text, part, |before|);
    }
  }

  /** The failures of the wire and of the cross-origin rules. */
  predicate IsNamedError(name: string) {
    name in {"ERR_TIMED_OUT", "ERR_CONNECTION_TIMED_OUT", "ERR_CONNECTION_RESET", "ERR_CONNECTION_CLOSED",
             "ERR_CONNECTION_ABORTED", "ERR_EMPTY_RESPONSE", "ERR_HTTP2_", "ERR_QUIC_PROTOCOL_ERROR",
             "ERR_INCOMPLETE_CHUNKED_ENCODING", "ERR_CONTENT_LENGTH_MISMATCH",
             "ERR_BLOCKED_BY_ORB", "ERR_BLOCKED_BY_RESPONSE"}
  }

  ghost predicate NamesAnError(errorText: string) {
    exists name :: IsNamedError(name) && Contains(errorText, name)
  }

  /** The origin refused it, or it failed on the wire or at a cross-origin rule; not if the page took it
      back or the worker blocked it. */
  ghost predicate SpeaksAgainst(e: Event) {
    match e
    case Response(_, status) => status == 403 || status == 429
    case Failed(_, errorText, canceled, blockedByUs, cors) =>
      !canceled && !blockedByUs && !Contains(errorText, "ERR_ABORTED") && (cors || NamesAnError(errorText))
    case _ => false
  }

  /** The load that began with event `i` was last sent with event `j`; a redirect sends it again. */
  ghost predicate LastSent(events: seq<Event>, x: Id, i: nat, j: nat) {
    i <= j < |events| && IsSend(events[j], x) && NoneAfter(events, j, IsSend, x)
  }

  /** The load of `x` that began with event `i` counts: a script or a stylesheet from anywhere, or data
      last asked for on the same site; and the last thing that went wrong with it speaks against it, or
      nothing has and it is ten seconds old. */
  ghost predicate Counts(events: seq<Event>, x: Id, i: nat, sameSite: string -> bool, now: nat) {
    && Birth(events, x, i)
    && (events[i].resourceType in {Some(Script), Some(Stylesheet)}
        || exists j: nat :: LastSent(events, x, i, j) && sameSite(events[j].url))
    && ((NoneAfter(events, i, IsBad, x) && now >= events[i].at + 10_000)
        || exists j: nat :: LastAfter(events, i, IsBad, x, j) && SpeaksAgainst(events[j]))
  }

  ghost predicate IsMarker(events: seq<Event>, x: Id, sameSite: string -> bool, now: nat) {
    exists i: nat :: Counts(events, x, i, sameSite, now)
  }

  ghost function MarkerIds(events: seq<Event>, sameSite: string -> bool, now: nat): set<Id> {
    set x | x in SentIds(events) && IsMarker(events, x, sameSite, now)
  }

  /** C5 or, failing that, C6. */
  ghost function DocumentMarkers(events: seq<Event>): seq<string> {
    if StillLoading(events) then ["main document still loading"]
    else if LastDocument(events).Some? && !LoadFired(events) then ["load event never fired"]
    else []
  }

  // ----- judging a load -----

  lemma NamedErrorsAre(errorText: string)
    ensures ContainsAny(errorText, CrossOriginBlocks) || ContainsAny(errorText, TransportErrors) <==> NamesAnError(errorText)
  {
    if ContainsAny(errorText, CrossOriginBlocks) {
      var i :| 0 <= i < |CrossOriginBlocks| && Contains(errorText, CrossOriginBlocks[i]);
      assert IsNamedError(CrossOriginBlocks[i]);
    }
    if ContainsAny(errorText, TransportErrors) {
      var i :| 0 <= i < |TransportErrors| && Contains(errorText, TransportErrors[i]);
      assert IsNamedError(TransportErrors[i]);
    }
    if NamesAnError(errorText) {
      var name :| IsNamedError(name) && Contains(errorText, name);
      NamedErrorIsListed(name);
      assert name in CrossOriginBlocks + TransportErrors;
    }
  }

  lemma NamedErrorIsListed(name: string)
    requires IsNamedError(name)
    ensures name in CrossOriginBlocks || name in TransportErrors
  {
    assert CrossOriginBlocks[0] == "ERR_BLOCKED_BY_ORB" && CrossOriginBlocks[1] == "ERR_BLOCKED_BY_RESPONSE";
    assert TransportErrors == [
      "ERR_TIMED_OUT", "ERR_CONNECTION_TIMED_OUT", "ERR_CONNECTION_RESET", "ERR_CONNECTION_CLOSED",
      "ERR_CONNECTION_ABORTED", "ERR_EMPTY_RESPONSE", "ERR_HTTP2_", "ERR_QUIC_PROTOCOL_ERROR",
      "ERR_INCOMPLETE_CHUNKED_ENCODING", "ERR_CONTENT_LENGTH_MISMATCH"];
  }

  /** What counts and what does not: a script or stylesheet from anywhere, or same-site data, that
      the origin refused, that has been pending for ten seconds, or that failed on the wire or at a
      cross-origin rule, unless the page or the tracker's own block list stopped it. */
  lemma MarkerIff(load: Load, sameSite: string -> bool, now: nat)
    ensures Judge(load, sameSite, now).Some? <==>
              && (load.kind == Asset || sameSite(load.url))
              && match load.outcome
                 case Pending => now >= load.started + 10_000
                 case Status(_) => true
                 case Failure(errorText, canceled, blockedByUs, cors) =>
                   !canceled && !blockedByUs && !Contains(errorText, "ERR_ABORTED") && (cors || NamesAnError(errorText))
  {
    if load.outcome.Failure? { NamedErrorsAre(load.outcome.errorText); }
  }

  // ----- from the loads to the events -----

  /** The events always leave a reading. */
  lemma {:induction false} ReadingExists(events: seq<Event>, x: Id)
    ensures exists o :: Agrees(events, x, o)
  {
    if events == [] {
      assert Agrees([], x, None);
    } else {
      var earlier, e := events[..|events| - 1], events[|events| - 1];
      ReadingExists(earlier, x);
      var o :| Agrees(earlier, x, o);
      LoadStep(earlier, e, x, o);
      assert events == earlier + [e];
    }
  }

  lemma {:induction false} LastExists(events: seq<Event>, i: nat, fits: (Event, Id) -> bool, x: Id)
    requires i < |events|
    ensures NoneAfter(events, i, fits, x) || exists j: nat :: LastAfter(events, i, fits, x, j)
    decreases |events| - i
  {
    if !NoneAfter(events, i, fits, x) {
      var k :| i < k < |events| && fits(events[k], x);
      LastExists(events, k, fits, x);
      if NoneAfter(events, k, fits, x) {
        assert LastAfter(events, i, fits, x, k);
      } else {
        var j: nat :| LastAfter(events, k, fits, x, j);
        assert LastAfter(events, i, fits, x, j);
      }
    }
  }

  /** The address of a load is that of its last send. */
  lemma AddressIsTheLast(events: seq<Event>, x: Id, i: nat, load: Load)
    requires Birth(events, x, i) && Describes(events, x, i, load)
    ensures forall j: nat :: LastSent(events, x, i, j) ==> load.url == events[j].url
    ensures exists j: nat :: LastSent(events, x, i, j)
  {
    OneLast(events, i, IsSend, x);
    if NoneAfter(events, i, IsSend, x) {
      assert LastSent(events, x, i, i);
    } else {
      var j: nat :| LastAfter(events, i, IsSend, x, j) && load.url == events[j].url;
      assert LastSent(events, x, i, j);
      forall k: nat | LastSent(events, x, i, k) ensures k == j {
        assert k > i ==> LastAfter(events, i, IsSend, x, k);
      }
    }
  }

  /** A load is judged as its events say. */
  lemma JudgedByTheEvents(events: seq<Event>, x: Id, i: nat, load: Load, sameSite: string -> bool, now: nat)
    requires Birth(events, x, i) && Describes(events, x, i, load)
    ensures Judge(load, sameSite, now).Some? <==> Counts(events, x, i, sameSite, now)
  {
    MarkerIff(load, sameSite, now);
    AddressIsTheLast(events, x, i, load);
    OneLast(events, i, IsBad, x);
    var last: nat :| LastSent(events, x, i, last);
    if !NoneAfter(events, i, IsBad, x) {
      var j: nat :| LastAfter(events, i, IsBad, x, j) && load.outcome == OutcomeOf(events[j]);
      assert Wrong(load) <==> SpeaksAgainst(events[j]);
    }
  }

  ghost predicate Wrong(load: Load) {
    match load.outcome
    case Pending => false
    case Status(_) => true
    case Failure(errorText, canceled, blockedByUs, cors) =>
      !canceled && !blockedByUs && !Contains(errorText, "ERR_ABORTED") && (cors || NamesAnError(errorText))
  }

  /** So an open load is a marker exactly when the events make it one. */
  lemma MarkerOfTheTrace(events: seq<Event>, x: Id, o: Option<Load>, sameSite: string -> bool, now: nat)
    requires Reads(events, x, o)
    ensures IsMarker(events, x, sameSite, now) <==> o.Some? && Judge(o.value, sameSite, now).Some?
  {
    if IsMarker(events, x, sameSite, now) {
      var i: nat :| Counts(events, x, i, sameSite, now);
      assert !CleanSince(events, x, i);
      var k: nat :| Birth(events, x, k) && Describes(events, x, k, o.value);
      OneBirth(events, x, i, k);
      OneBirth(events, x, k, i);
      JudgedByTheEvents(events, x, k, o.value, sameSite, now);
    }
    if o.Some? && Judge(o.value, sameSite, now).Some? {
      var k: nat :| Birth(events, x, k) && Describes(events, x, k, o.value);
      JudgedByTheEvents(events, x, k, o.value, sameSite, now);
    }
  }

  lemma MarkersHaveDifferentIds(loads: map<Id, Load>, sameSite: string -> bool, now: nat, markers: seq<Marker>)
    requires ListsAll(loads, loads.Keys, sameSite, now, markers)
    ensures |markers| == |set x | x in loads && Judge(loads[x], sameSite, now).Some?|
  {
    var ids := seq(|markers|, i requires 0 <= i < |markers| => markers[i].id);
    forall i, j | 0 <= i < j < |ids| ensures ids[i] != ids[j] {
      assert Lists(loads, loads.Keys, sameSite, now, markers[i]) && Lists(loads, loads.Keys, sameSite, now, markers[j]);
    }
    DistinctCount(ids);
    forall x ensures x in ids <==> x in loads && Judge(loads[x], sameSite, now).Some? {
      if x in ids {
        var i :| 0 <= i < |ids| && ids[i] == x;
        assert Lists(loads, loads.Keys, sameSite, now, markers[i]);
      }
      if x in loads && Judge(loads[x], sameSite, now).Some? {
        var m := MarkerOf(x, loads[x], Judge(loads[x], sameSite, now).value);
        assert Lists(loads, loads.Keys, sameSite, now, m);
        var i :| 0 <= i < |markers| && markers[i] == m;
        assert ids[i] == x;
      }
    }
    assert (set x | x in ids) == (set x | x in loads && Judge(loads[x], sameSite, now).Some?);
  }

  /** The number the verdict gives is the number of markers the events themselves show. */
  lemma VerdictCountsTheTrace(events: seq<Event>, sameSite: string -> bool, now: nat, markers: seq<Marker>)
    requires UnderCap(events)
    requires ListsAll(Run(events).loads, Run(events).loads.Keys, sameSite, now, markers)
    ensures |DocumentMarker(Run(events))| + |markers|
         == |DocumentMarkers(events)| + |MarkerIds(Page(events), sameSite, now)|
  {
    TrackerReadsTheTrace(events);
    MarkerIdsAreLoads(Run(events), Page(events), sameSite, now);
    MarkersHaveDifferentIds(Run(events).loads, sameSite, now, markers);
    DocumentMarkerIsRight(events);
  }

  lemma DocumentMarkerIsRight(events: seq<Event>)
    ensures DocumentMarker(Run(events)) == DocumentMarkers(events)
  {
    RunKnowsTheDocument(events);
    RunKnowsTheLoadEvent(events);
    if StillLoading(events) {
      var m: nat :| && m < |events| && IsMainDocument(events[m])
                    && forall k :: m < k < |events| ==> !IsMainDocument(events[k]) && !Ends(events[k], events[m].id);
      LastDocumentIsLast(events, m);
    }
  }

  lemma MarkerIdsAreLoads(s: State, events: seq<Event>, sameSite: string -> bool, now: nat)
    requires Tells(s, events)
    ensures MarkerIds(events, sameSite, now) == set x | x in s.loads && Judge(s.loads[x], sameSite, now).Some?
  {
    TellsOpenIds(s, events);
    forall x ensures x in MarkerIds(events, sameSite, now) <==> x in s.loads && Judge(s.loads[x], sameSite, now).Some? {
      assert Agrees(events, x, Lookup(s, x));
      MarkerOfTheTrace(events, x, Lookup(s, x), sameSite, now);
      if IsMarker(events, x, sameSite, now) {
        var i: nat :| Counts(events, x, i, sameSite, now);
        assert events[i] in events;
      }
    }
  }

  /** With no new events, time only adds markers. */
  lemma MarkersOnlyGrow(events: seq<Event>, sameSite: string -> bool, earlier: nat, later: nat)
    requires earlier <= later
    ensures MarkerIds(events, sameSite, earlier) <= MarkerIds(events, sameSite, later)
    ensures |MarkerIds(events, sameSite, earlier)| <= |MarkerIds(events, sameSite, later)|
  {
    forall x | x in MarkerIds(events, sameSite, earlier) ensures x in MarkerIds(events, sameSite, later) {
      var i: nat :| Counts(events, x, i, sameSite, earlier);
      assert Counts(events, x, i, sameSite, later);
    }
    var before, after := MarkerIds(events, sameSite, earlier), MarkerIds(events, sameSite, later);
    assert after == before + (after - before);
  }

  // ----- how the verdict is worded -----

  predicate IsShort(url: string, short: string) {
    exists n: nat :: n <= |url| && CutAt(url, n) && short == if n <= 120 then url[..n] else url[..120] + "\U{2026}"
  }

  /** The address ends, or its query or fragment begins, and neither began before. */
  predicate CutAt(url: string, n: nat)
    requires n <= |url|
  {
    (n == |url| || url[n] in {'?', '#'}) && '?' !in url[..n] && '#' !in url[..n]
  }

  lemma {:induction false} UpToQueryCuts(url: string)
    ensures |UpToQuery(url)| <= |url| && UpToQuery(url) == url[..|UpToQuery(url)|] && CutAt(url, |UpToQuery(url)|)
  {
    if url != [] && url[0] !in {'?', '#'} {
      UpToQueryCuts(url[1..]);
      var n := |UpToQuery(url[1..])|;
      assert url[..n + 1] == [url[0]] + url[1..][..n];
    }
  }

  lemma ShortUrlIsShort(url: string)
    ensures IsShort(url, ShortUrl(url))
  {
    UpToQueryCuts(url);
    var n := |UpToQuery(url)|;
    assert UpToQuery(url)[..] == url[..n];
    assert n > 120 ==> UpToQuery(url)[..120] == url[..120];
  }

  function Nets(k: nat): string { if k == 0 then "" else "net::" + Nets(k - 1) }

  /** The text without any number of leading marks. */
  ghost predicate IsBare(errorText: string, bare: string) {
    (exists k: nat :: errorText == Nets(k) + bare) && !("net::" <= bare)
  }

  lemma OneMoreNet(k: nat, bare: string)
    ensures "net::" + (Nets(k) + bare) == Nets(k + 1) + bare
  {
  }

  lemma {:induction false} WithoutNetIsBare(errorText: string)
    ensures IsBare(errorText, WithoutNet(errorText))
  {
    if "net::" <= errorText {
      WithoutNetIsBare(errorText[5..]);
      var bare := WithoutNet(errorText[5..]);
      var k: nat :| errorText[5..] == Nets(k) + bare;
      OneMoreNet(k, bare);
      assert errorText == "net::" + errorText[5..];
    } else {
      assert errorText == Nets(0) + errorText;
    }
  }

  ghost predicate SaysPending(events: seq<Event>, x: Id, i: nat, now: nat, reason: string)
    requires i < |events| && events[i].WillBeSent? && events[i].at <= now
  {
    var age := "pending " + Diagnostics.Digits((now - events[i].at) / 1000) + "s";
    if NoneAfter(events, i, IsResponse, x) then reason == age
    else exists j: nat :: LastAfter(events, i, IsResponse, x, j)
                          && reason == age + ", HTTP " + Diagnostics.Digits(events[j].status) + " body"
  }

  ghost predicate SaysWrong(e: Event, reason: string) {
    match e
    case Response(_, status) => (status == 403 && reason == "HTTP 403") || (status == 429 && reason == "HTTP 429")
    case Failed(_, errorText, _, _, cors) =>
      exists bare :: IsBare(errorText, bare) && reason == if cors then "CORS " + bare else bare
    case _ => false
  }

  /** The reason given for the load: the last thing that went wrong with it, or how long it has been
      pending, with the status of its headers if they have arrived. */
  ghost predicate Says(events: seq<Event>, x: Id, i: nat, now: nat, reason: string) {
    && i < |events| && events[i].WillBeSent?
    && (if NoneAfter(events, i, IsBad, x) then events[i].at <= now && SaysPending(events, x, i, now, reason)
        else exists j: nat :: LastAfter(events, i, IsBad, x, j) && SaysWrong(events[j], reason))
  }

  ghost predicate IsLine(t: Option<ResourceType>, reason: string, url: string, text: string) {
    exists typeLabel, short ::
      t.Some? && IsLabel(t.value, typeLabel) && IsShort(url, short) && text == typeLabel + " " + reason + " " + short
  }

  /** The line of the load of `x` that began with event `i`. */
  ghost predicate Worded(events: seq<Event>, x: Id, i: nat, now: nat, text: string) {
    exists j: nat, reason ::
      LastSent(events, x, i, j) && Says(events, x, i, now, reason) && IsLine(events[i].resourceType, reason, events[j].url, text)
  }

  lemma RefusalsAreSpelt()
    ensures Diagnostics.Digits(403) == "403" && Diagnostics.Digits(429) == "429"
  {
    assert Diagnostics.Digits(4) == "4";
    assert Diagnostics.Digits(40) == "40" && Diagnostics.Digits(42) == "42";
  }

  lemma ReasonSays(events: seq<Event>, x: Id, i: nat, load: Load, sameSite: string -> bool, now: nat)
    requires Birth(events, x, i) && Describes(events, x, i, load) && Judge(load, sameSite, now).Some?
    ensures Says(events, x, i, now, Judge(load, sameSite, now).value)
  {
    var reason := Judge(load, sameSite, now).value;
    OneLast(events, i, IsBad, x);
    OneLast(events, i, IsResponse, x);
    if NoneAfter(events, i, IsBad, x) {
      assert SaysPending(events, x, i, now, reason);
    } else {
      var j: nat :| LastAfter(events, i, IsBad, x, j) && load.outcome == OutcomeOf(events[j]);
      if events[j].Response? {
        RefusalsAreSpelt();
      } else {
        WithoutNetIsBare(events[j].errorText);
      }
      assert SaysWrong(events[j], reason);
    }
  }

  lemma LineIsWorded(events: seq<Event>, x: Id, i: nat, load: Load, sameSite: string -> bool, now: nat)
    requires Birth(events, x, i) && Describes(events, x, i, load) && Judge(load, sameSite, now).Some?
    ensures Worded(events, x, i, now, MarkerText(load, Judge(load, sameSite, now).value))
  {
    var reason := Judge(load, sameSite, now).value;
    ReasonSays(events, x, i, load, sameSite, now);
    AddressIsTheLast(events, x, i, load);
    ShortUrlIsShort(load.url);
    var j: nat :| LastSent(events, x, i, j);
    assert IsLabel(events[i].resourceType.value, load.typeLabel);
    assert IsLine(events[i].resourceType, reason, events[j].url, MarkerText(load, reason));
  }

  /** The lines of the loads: one for each that counts, worded by its events, oldest first. */
  ghost predicate LinesTell(events: seq<Event>, sameSite: string -> bool, now: nat, markers: seq<Marker>) {
    && (forall a, b :: 0 <= a < b < |markers| ==> markers[a].started <= markers[b].started && markers[a].id != markers[b].id)
    && (forall a :: 0 <= a < |markers| ==> exists i: nat ::
          && Counts(events, markers[a].id, i, sameSite, now)
          && markers[a].started == events[i].at && Worded(events, markers[a].id, i, now, markers[a].text))
    && (forall x :: IsMarker(events, x, sameSite, now) ==> exists a :: 0 <= a < |markers| && markers[a].id == x)
  }

  lemma LineTells(s: State, events: seq<Event>, sameSite: string -> bool, now: nat, m: Marker)
    requires Tells(s, events) && Lists(s.loads, s.loads.Keys, sameSite, now, m)
    ensures exists i: nat ::
              && Counts(events, m.id, i, sameSite, now)
              && m.started == events[i].at && Worded(events, m.id, i, now, m.text)
  {
    var load := s.loads[m.id];
    assert Agrees(events, m.id, Lookup(s, m.id));
    var i: nat :| Birth(events, m.id, i) && Describes(events, m.id, i, load);
    JudgedByTheEvents(events, m.id, i, load, sameSite, now);
    LineIsWorded(events, m.id, i, load, sameSite, now);
    assert Counts(events, m.id, i, sameSite, now) && Worded(events, m.id, i, now, m.text);
  }

  lemma EveryMarkerHasALine(s: State, events: seq<Event>, sameSite: string -> bool, now: nat, markers: seq<Marker>, x: Id)
    requires Tells(s, events) && ListsAll(s.loads, s.loads.Keys, sameSite, now, markers) && IsMarker(events, x, sameSite, now)
    ensures exists a :: 0 <= a < |markers| && markers[a].id == x
  {
    assert Agrees(events, x, Lookup(s, x));
    MarkerOfTheTrace(events, x, Lookup(s, x), sameSite, now);
    var m := MarkerOf(x, s.loads[x], Judge(s.loads[x], sameSite, now).value);
    assert Lists(s.loads, s.loads.Keys, sameSite, now, m);
    var a :| 0 <= a < |markers| && markers[a] == m;
  }

  /** The whole verdict, read off the events: the document's marker first, then a line for every load of
      the page that counts, oldest first; five of them are spelt out, and all are counted. */
  lemma VerdictTellsTheTrace(events: seq<Event>, sameSite: string -> bool, now: nat, markers: seq<Marker>, listed: seq<string>, total: nat)
    requires UnderCap(events) && IsVerdict(Run(events), sameSite, now, markers, listed, total)
    ensures LinesTell(Page(events), sameSite, now, markers)
    ensures listed <= DocumentMarkers(events) + TextsOf(markers) && |listed| == if total < 5 then total else 5
    ensures total == |DocumentMarkers(events)| + |MarkerIds(Page(events), sameSite, now)|
  {
    var s := Run(events);
    TrackerReadsTheTrace(events);
    DocumentMarkerIsRight(events);
    VerdictCountsTheTrace(events, sameSite, now, markers);
    forall a | 0 <= a < |markers| ensures Lists(s.loads, s.loads.Keys, sameSite, now, markers[a]) {
      assert markers[a] in markers;
    }
    forall a | 0 <= a < |markers|
      ensures exists i: nat ::
                && Counts(Page(events), markers[a].id, i, sameSite, now)
                && markers[a].started == Page(events)[i].at && Worded(Page(events), markers[a].id, i, now, markers[a].text)
    {
      LineTells(s, Page(events), sameSite, now, markers[a]);
    }
    forall x | IsMarker(Page(events), x, sameSite, now) ensures exists a :: 0 <= a < |markers| && markers[a].id == x {
      EveryMarkerHasALine(s, Page(events), sameSite, now, markers, x);
    }
  }
}
