/** The capped, deduplicated log entries of one request. A repeated entry is kept once, its count
    written into the text as " (xN)" and read back from it at the next repetition. */
module Diagnostics {
  import opened Wrappers
  import opened Sequences

  const MaxEntryChars: nat := 500
  const UsizeLimit: nat := 0x1_0000_0000_0000_0000

  // ----- the counter encoding -----

  predicate IsDigit(c: char) { '0' <= c <= '9' }

  function Digits(n: nat): (s: string)
    ensures s != [] && forall c :: c in s ==> IsDigit(c)
  {
    var last := [('0' as int + n % 10) as char];
    if n < 10 then last else Digits(n / 10) + last
  }

  function ValueOf(s: string): nat
    requires forall c :: c in s ==> IsDigit(c)
  {
    if s == [] then 0
    else
      assert IsDigit(s[|s| - 1]);
      10 * ValueOf(s[..|s| - 1]) + (s[|s| - 1] as int - '0' as int)
  }

  /** An unsigned decimal number, as the standard library reads one: one leading plus sign is
      allowed, an empty or too large number is an error. */
  function ParseUsize(s: string): Option<nat> {
    var digits := if |s| > 1 && s[0] == '+' then s[1..] else s;
    if digits != [] && (forall c :: c in digits ==> IsDigit(c)) && ValueOf(digits) < UsizeLimit
    then Some(ValueOf(digits))
    else None
  }

  predicate MarkerAt(s: string, i: nat) {
    i + 3 <= |s| && s[i] == ' ' && s[i + 1] == '(' && s[i + 2] == 'x'
  }

  /** The last marker that starts before `end`. */
  function LastMarker(s: string, end: nat): (r: Option<nat>)
    ensures match r
            case Some(i) => i < end && MarkerAt(s, i) && forall j :: i < j < end ==> !MarkerAt(s, j)
            case None => forall j :: 0 <= j < end ==> !MarkerAt(s, j)
  {
    if end == 0 then None
    else if MarkerAt(s, end - 1) then Some(end - 1)
    else LastMarker(s, end - 1)
  }

  function RFind(s: string): Option<nat> { LastMarker(s, |s|) }

  predicate EndsWithParen(s: string) { s != [] && s[|s| - 1] == ')' }

  /** Looks as if it carried a count. */
  predicate Marked(s: string) { EndsWithParen(s) && exists i: nat :: i < |s| && MarkerAt(s, i) }

  function EntryBody(entry: string): string {
    match RFind(entry)
    case Some(i) => if EndsWithParen(entry) then entry[..i] else entry
    case None => entry
  }

  function EntryCount(entry: string): nat {
    match RFind(entry)
    case Some(i) =>
      if EndsWithParen(entry) then
        (match ParseUsize(entry[i + 3..|entry| - 1]) case Some(n) => n case None => 1)
      else 1
    case None => 1
  }

  function Counted(text: string, n: nat): string { text + " (x" + Digits(n) + ")" }

  lemma {:induction false} DigitsRoundTrip(n: nat)
    ensures ValueOf(Digits(n)) == n
  {
    var s := Digits(n);
    if n >= 10 {
      assert s[..|s| - 1] == Digits(n / 10);
      DigitsRoundTrip(n / 10);
    } else {
      assert s[..|s| - 1] == [];
    }
  }

  /** Reading undoes writing, for every text and every count a counter can hold. */
  lemma CountedRoundTrip(text: string, n: nat)
    requires n < UsizeLimit
    ensures EntryBody(Counted(text, n)) == text && EntryCount(Counted(text, n)) == n
  {
    var digits := Digits(n);
    var entry := Counted(text, n);
    assert MarkerAt(entry, |text|);
    assert entry[|text| + 3..|entry| - 1] == digits;
    forall j | |text| < j < |entry| ensures !MarkerAt(entry, j) {
      if |text| + 3 <= j < |entry| - 1 { assert entry[j] == digits[j - |text| - 3] && IsDigit(digits[j - |text| - 3]); }
    }
    assert RFind(entry) == Some(|text|);
    assert entry[..|text|] == text;
    assert IsDigit(digits[0]);
    DigitsRoundTrip(n);
  }

  /** A text that carries no count is read back as itself, once; any other loses its ending. */
  lemma PlainTextIff(text: string)
    ensures EntryBody(text) == text <==> !Marked(text)
    ensures !Marked(text) ==> EntryCount(text) == 1
  {
    match RFind(text)
    case Some(i) => assert |text[..i]| < |text|;
    case None =>
  }

  /** What stands between the marker and the last parenthesis counts if it is a number, a plus sign in
      front or not, and anything else counts as one. */
  lemma MarkerIsRead(body: string, inner: string)
    requires ' ' !in inner
    ensures var digits := if |inner| > 1 && inner[0] == '+' then inner[1..] else inner;
            var readable := digits != [] && (forall c :: c in digits ==> '0' <= c <= '9') && ValueOf(digits) < 0x1_0000_0000_0000_0000;
            && EntryBody(body + " (x" + inner + ")") == body
            && EntryCount(body + " (x" + inner + ")") == if readable then ValueOf(digits) else 1
  {
    var entry := body + " (x" + inner + ")";
    assert MarkerAt(entry, |body|);
    forall j | |body| < j < |entry| ensures !MarkerAt(entry, j) {
      if |body| + 3 <= j < |entry| - 1 { assert entry[j] == inner[j - |body| - 3]; }
    }
    assert RFind(entry) == Some(|body|);
    assert entry[..|body|] == body && entry[|body| + 3..|entry| - 1] == inner && EndsWithParen(entry);
    assert EntryCount(entry) == match ParseUsize(inner) case Some(n) => n case None => 1;
    var digits := if |inner| > 1 && inner[0] == '+' then inner[1..] else inner;
    assert (forall c :: c in digits ==> IsDigit(c)) <==> (forall c :: c in digits ==> '0' <= c <= '9');
  }

  // ----- truncation -----

  const TruncationMark: string := "\U{2026}[truncated]"

  function Truncate(text: string, maxChars: nat): string {
    var t := Trim(text);
    if |t| <= maxChars then t else t[..maxChars] + TruncationMark
  }

  /** An entry is the text without the white space around it; beyond five hundred characters it is the
      first five hundred, and says so. */
  lemma EntryIsTheStart(text: string)
    ensures exists kept ::
              && IsTrimOf(text, kept)
              && Truncate(text, MaxEntryChars) == if |kept| <= 500 then kept else kept[..500] + "\U{2026}[truncated]"
  {
    TrimMeans(text);
  }

  /** A text that was cut never looks as if it carried a count. */
  lemma CutTextIsPlain(text: string, maxChars: nat)
    requires |Trim(text)| > maxChars
    ensures !Marked(Truncate(text, maxChars))
    ensures |Truncate(text, maxChars)| == maxChars + |TruncationMark|
  {
    var cut := Trim(text)[..maxChars];
    assert (cut + TruncationMark)[|cut| + |TruncationMark| - 1] == ']';
  }

  // ----- one category -----

  function FirstWithBody(entries: seq<string>, text: string): (i: nat)
    ensures i <= |entries|
    ensures i < |entries| ==> EntryBody(entries[i]) == text
    ensures forall j :: 0 <= j < i ==> EntryBody(entries[j]) != text
  {
    if entries == [] || EntryBody(entries[0]) == text then 0 else 1 + FirstWithBody(entries[1..], text)
  }

  datatype Category = JsError | FailedRequest | ConsoleError | ConsoleMessage

  datatype Log = Log(entries: seq<string>, dropped: nat)

  /** A counter wraps around. */
  function Incremented(count: nat): nat { if count + 1 < UsizeLimit then count + 1 else 0 }

  function Append(log: Log, text: string, maxEntries: nat): Log {
    var i := FirstWithBody(log.entries, text);
    if i < |log.entries| then
      log.(entries := log.entries[i := Counted(text, Incremented(EntryCount(log.entries[i])))])
    else if |log.entries| >= maxEntries then log.(dropped := log.dropped + 1)
    else log.(entries := log.entries + [text])
  }

  class DiagnosticsBuffer {
    var jsErrors: seq<string>
    var failedRequests: seq<string>
    var consoleErrors: seq<string>
    var consoleMessages: seq<string>
    var dropped: nat

    constructor ()
      ensures forall c :: Of(c) == []
      ensures dropped == 0
    {
      jsErrors, failedRequests, consoleErrors, consoleMessages := [], [], [], [];
      dropped := 0;
    }

    function Of(category: Category): seq<string>
      reads this
    {
      match category
      case JsError => jsErrors
      case FailedRequest => failedRequests
      case ConsoleError => consoleErrors
      case ConsoleMessage => consoleMessages
    }

    method Store(category: Category, entries: seq<string>)
      modifies this
      ensures Of(category) == entries && dropped == old(dropped)
      ensures forall c :: c != category ==> Of(c) == old(Of(c))
    {
      match category
      case JsError => jsErrors := entries;
      case FailedRequest => failedRequests := entries;
      case ConsoleError => consoleErrors := entries;
      case ConsoleMessage => consoleMessages := entries;
    }

    method Push(category: Category, text: string, maxEntries: nat)
      modifies this
      ensures Log(Of(category), dropped)
           == Append(Log(old(Of(category)), old(dropped)), Truncate(text, MaxEntryChars), maxEntries)
      ensures forall c :: c != category ==> Of(c) == old(Of(c))
    {
      var entries := Of(category);
      var cut := Truncate(text, MaxEntryChars);
      for i := 0 to |entries|
        invariant Of(category) == entries && dropped == old(dropped)
        invariant forall c :: Of(c) == old(Of(c))
        invariant forall j :: 0 <= j < i ==> EntryBody(entries[j]) != cut
      {
        if EntryBody(entries[i]) == cut {
          Store(category, entries[i := Counted(cut, Incremented(EntryCount(entries[i])))]);
          return;
        }
      }
      if |entries| >= maxEntries {
        dropped := dropped + 1;
        return;
      }
      Store(category, entries + [cut]);
    }
  }

  // ----- the same without the encoding: a tally -----

  datatype Item<T> = Item(body: T, count: nat)

  datatype Tally<T> = Tally(items: seq<Item<T>>, dropped: nat)

  function IndexOf<T(==)>(items: seq<Item<T>>, body: T): (i: nat)
    ensures i <= |items|
    ensures i < |items| ==> items[i].body == body
    ensures forall j :: 0 <= j < i ==> items[j].body != body
  {
    if items == [] || items[0].body == body then 0 else 1 + IndexOf(items[1..], body)
  }

  function Add<T(==)>(tally: Tally<T>, body: T, maxItems: nat): Tally<T> {
    var i := IndexOf(tally.items, body);
    if i < |tally.items| then tally.(items := tally.items[i := Item(body, tally.items[i].count + 1)])
    else if |tally.items| >= maxItems then tally.(dropped := tally.dropped + 1)
    else tally.(items := tally.items + [Item(body, 1)])
  }

  function AddAll<T(==)>(pushes: seq<T>, maxItems: nat): Tally<T> {
    if pushes == [] then Tally([], 0)
    else Add(AddAll(pushes[..|pushes| - 1], maxItems), pushes[|pushes| - 1], maxItems)
  }

  function Sum<T>(items: seq<Item<T>>): nat {
    if items == [] then 0 else Sum(items[..|items| - 1]) + items[|items| - 1].count
  }

  ghost predicate Shows<T>(items: seq<Item<T>>, kept: seq<T>, pushes: multiset<T>) {
    && |items| == |kept|
    && forall i :: 0 <= i < |kept| ==> items[i] == Item(kept[i], pushes[kept[i]])
  }

  /** The items are the first values seen, each with the number of times it was pushed, and every
      other push was dropped. */
  ghost predicate Tells<T(!new)>(tally: Tally<T>, pushes: seq<T>, maxItems: nat) {
    && Shows(tally.items, FirstOf(FirstSeen(pushes), maxItems), multiset(pushes))
    && Sum(tally.items) + tally.dropped == |pushes|
  }

  lemma SumOfUpdate<T>(items: seq<Item<T>>, i: nat, item: Item<T>)
    requires i < |items|
    ensures Sum(items[i := item]) == Sum(items) - items[i].count + item.count
    decreases |items|
  {
    var updated := items[i := item];
    if i == |items| - 1 {
      assert updated[..i] == items[..i];
    } else {
      assert updated[..|items| - 1] == items[..|items| - 1][i := item];
      SumOfUpdate(items[..|items| - 1], i, item);
    }
  }

  lemma AddConserves<T>(tally: Tally<T>, body: T, maxItems: nat)
    ensures var after := Add(tally, body, maxItems);
            Sum(after.items) + after.dropped == Sum(tally.items) + tally.dropped + 1
  {
    var i := IndexOf(tally.items, body);
    if i < |tally.items| {
      SumOfUpdate(tally.items, i, Item(body, tally.items[i].count + 1));
    } else {
      assert (tally.items + [Item(body, 1)])[..|tally.items|] == tally.items;
    }
  }

  function Kept<T(==)>(kept: seq<T>, body: T, maxItems: nat): seq<T> {
    if body in kept || |kept| >= maxItems then kept else kept + [body]
  }

  lemma KeptPrefix<T>(seen: seq<T>, body: T, maxItems: nat)
    requires Distinct(seen)
    ensures var kept := FirstOf(seen, maxItems);
            && FirstOf(if body in seen then seen else seen + [body], maxItems) == Kept(kept, body, maxItems)
            && Distinct(kept)
            && (body !in kept && |kept| < maxItems ==> body !in seen)
  {
    if |seen| <= maxItems {
      assert FirstOf(seen, maxItems) == seen;
    } else {
      assert (seen + [body])[..maxItems] == seen[..maxItems];
    }
  }

  lemma KeptStep<T(!new)>(pushes: seq<T>, body: T, maxItems: nat)
    ensures var kept := FirstOf(FirstSeen(pushes), maxItems);
            && FirstOf(FirstSeen(pushes + [body]), maxItems) == Kept(kept, body, maxItems)
            && Distinct(kept)
            && (body !in kept && |kept| < maxItems ==> multiset(pushes)[body] == 0)
  {
    FirstSeenStep(pushes, body);
    KeptPrefix(FirstSeen(pushes), body, maxItems);
  }

  lemma AddShows<T>(tally: Tally<T>, kept: seq<T>, pushes: multiset<T>, body: T, maxItems: nat)
    requires Shows(tally.items, kept, pushes)
    requires Distinct(kept)
    requires body !in kept && |kept| < maxItems ==> pushes[body] == 0
    ensures Shows(Add(tally, body, maxItems).items, Kept(kept, body, maxItems), pushes + multiset{body})
  {
    var i := IndexOf(tally.items, body);
    if i < |tally.items| {
      assert kept[i] == body;
    } else {
      forall j | 0 <= j < |kept| ensures kept[j] != body {
        assert tally.items[j].body == kept[j];
      }
      assert body !in kept;
    }
  }

  lemma {:induction false} TallyTellsTheTruth<T(!new)>(pushes: seq<T>, maxItems: nat)
    ensures Tells(AddAll(pushes, maxItems), pushes, maxItems)
  {
    if pushes != [] {
      var before, last := pushes[..|pushes| - 1], pushes[|pushes| - 1];
      assert pushes == before + [last];
      TallyTellsTheTruth(before, maxItems);
      KeptStep(before, last, maxItems);
      AddShows(AddAll(before, maxItems), FirstOf(FirstSeen(before), maxItems), multiset(before), last, maxItems);
      assert multiset(pushes) == multiset(before) + multiset{last};
      AddConserves(AddAll(before, maxItems), last, maxItems);
    }
  }

  // ----- the encoding refines the tally -----

  function AppendAll(texts: seq<string>, maxEntries: nat): Log {
    if texts == [] then Log([], 0)
    else Append(AppendAll(texts[..|texts| - 1], maxEntries), texts[|texts| - 1], maxEntries)
  }

  function Decoded(entry: string): Item<string> { Item(EntryBody(entry), EntryCount(entry)) }

  ghost predicate EncodesItems(entries: seq<string>, items: seq<Item<string>>) {
    |entries| == |items| && forall i :: 0 <= i < |entries| ==> Decoded(entries[i]) == items[i]
  }

  ghost predicate Encodes(log: Log, tally: Tally<string>) {
    EncodesItems(log.entries, tally.items) && log.dropped == tally.dropped
  }

  lemma EntryEncodes(entries: seq<string>, items: seq<Item<string>>, i: nat, entry: string, item: Item<string>)
    requires EncodesItems(entries, items) && Decoded(entry) == item
    ensures EncodesItems(entries + [entry], items + [item])
    ensures i < |entries| ==> EncodesItems(entries[i := entry], items[i := item])
  {
  }

  predicate Plain(texts: seq<string>) { forall t :: t in texts ==> !Marked(t) }

  lemma SameIndex(log: Log, tally: Tally<string>, text: string)
    requires Encodes(log, tally)
    ensures FirstWithBody(log.entries, text) == IndexOf(tally.items, text)
  {
    var i, j := FirstWithBody(log.entries, text), IndexOf(tally.items, text);
    assert i < |log.entries| ==> Decoded(log.entries[i]) == tally.items[i];
    assert j < |log.entries| ==> Decoded(log.entries[j]) == tally.items[j];
  }

  lemma AppendEncodes(log: Log, tally: Tally<string>, text: string, maxEntries: nat)
    requires Encodes(log, tally) && !Marked(text)
    requires forall item :: item in tally.items ==> item.count + 1 < UsizeLimit
    ensures Encodes(Append(log, text, maxEntries), Add(tally, text, maxEntries))
  {
    SameIndex(log, tally, text);
    var i := IndexOf(tally.items, text);
    if i < |tally.items| {
      assert tally.items[i] in tally.items && Decoded(log.entries[i]) == tally.items[i];
      var count := tally.items[i].count + 1;
      CountedRoundTrip(text, count);
      EntryEncodes(log.entries, tally.items, i, Counted(text, count), Item(text, count));
    } else {
      PlainTextIff(text);
      EntryEncodes(log.entries, tally.items, i, text, Item(text, 1));
    }
  }

  lemma {:induction false} AppendAllEncodes(texts: seq<string>, maxEntries: nat)
    requires Plain(texts) && |texts| < UsizeLimit
    ensures Encodes(AppendAll(texts, maxEntries), AddAll(texts, maxEntries))
  {
    if texts != [] {
      var before, text := texts[..|texts| - 1], texts[|texts| - 1];
      assert forall t :: t in before ==> t in texts;
      AppendAllEncodes(before, maxEntries);
      TallyTellsTheTruth(before, maxEntries);
      forall item | item in AddAll(before, maxEntries).items ensures item.count + 1 < UsizeLimit {
        assert multiset(before)[item.body] <= |multiset(before)|;
      }
      AppendEncodes(AppendAll(before, maxEntries), AddAll(before, maxEntries), text, maxEntries);
    }
  }

  /** For texts that do not look like counts: the category, read back, holds the first `maxEntries`
      different texts in order of appearance, each with exactly the number of times it was pushed;
      every other push is in `dropped`. */
  lemma CategoryTellsTheTruth(texts: seq<string>, maxEntries: nat)
    requires Plain(texts) && |texts| < UsizeLimit
    ensures var log := AppendAll(texts, maxEntries);
            exists tally :: Encodes(log, tally) && Tells(tally, texts, maxEntries) && |tally.items| <= maxEntries
  {
    AppendAllEncodes(texts, maxEntries);
    TallyTellsTheTruth(texts, maxEntries);
  }

  /** The restriction is needed for every single excluded text: pushed twice, a text is kept once
      if and only if it does not look like a count. */
  lemma RepetitionIsCollapsedIff(text: string, maxEntries: nat)
    requires maxEntries >= 2
    ensures AppendAll([text, text], maxEntries) == Log([Counted(text, 2)], 0) <==> !Marked(text)
    ensures Marked(text) ==> AppendAll([text, text], maxEntries) == Log([text, text], 0)
  {
    PlainTextIff(text);
    assert [text, text][..1] == [text] && [text][..0] == [];
    assert AppendAll([text], maxEntries) == Log([text], 0);
    assert AppendAll([text, text], maxEntries) == Append(Log([text], 0), text, maxEntries);
    assert |[text, text]| != |[Counted(text, 2)]|;
    if !Marked(text) {
      assert FirstWithBody([text], text) == 0;
      assert [text][0 := Counted(text, 2)] == [Counted(text, 2)];
    } else {
      assert FirstWithBody([text], text) == 1;
    }
  }

  /** Nor do the counts add up without it: for every text, pushing what looks like its n-th
      repetition and then the text itself is read back as n + 1 pushes instead of two, or none where
      the counter overflows. */
  lemma MarkedTextChangesTheCount(text: string, n: nat, maxEntries: nat)
    requires n < 0x1_0000_0000_0000_0000 && maxEntries >= 1
    ensures var log := AppendAll([Counted(text, n), text], maxEntries);
            var next := (n + 1) % 0x1_0000_0000_0000_0000;
            log == Log([Counted(text, next)], 0) && EntryCount(log.entries[0]) == next
  {
    CountedRoundTrip(text, n);
    var next := (n + 1) % 0x1_0000_0000_0000_0000;
    assert next == Incremented(n);
    CountedRoundTrip(text, next);
    CountedAgain(Counted(text, n), text, Counted(text, next), maxEntries);
  }

  lemma CountedAgain(first: string, text: string, second: string, maxEntries: nat)
    requires maxEntries >= 1 && EntryBody(first) == text && second == Counted(text, Incremented(EntryCount(first)))
    ensures AppendAll([first, text], maxEntries) == Log([second], 0)
  {
    assert [first, text][..1] == [first] && [first][..0] == [];
    assert AppendAll([first], maxEntries) == Log([first], 0);
    assert FirstWithBody([first], text) == 0;
    assert [first][0 := second] == [second];
  }

  // ----- all four categories -----

  datatype Pushed = Pushed(category: Category, text: string)

  datatype Contents = Contents(entries: map<Category, seq<string>>, dropped: nat)

  function EntriesOf(b: Contents, c: Category): seq<string> {
    if c in b.entries then b.entries[c] else []
  }

  function BufferAfter(pushes: seq<Pushed>, maxEntries: nat): Contents {
    if pushes == [] then Contents(map[], 0)
    else
      var before := BufferAfter(pushes[..|pushes| - 1], maxEntries);
      var p := pushes[|pushes| - 1];
      var log := Append(Log(EntriesOf(before, p.category), before.dropped), Truncate(p.text, MaxEntryChars), maxEntries);
      Contents(before.entries[p.category := log.entries], log.dropped)
  }

  function TextsOf(pushes: seq<Pushed>, c: Category): (texts: seq<string>)
    ensures |texts| <= |pushes|
    ensures forall t :: t in texts ==> exists p :: p in pushes && t == Truncate(p.text, MaxEntryChars)
  {
    if pushes == [] then []
    else
      var p := pushes[|pushes| - 1];
      var texts := TextsOf(pushes[..|pushes| - 1], c);
      assert p in pushes && forall q :: q in pushes[..|pushes| - 1] ==> q in pushes;
      if p.category == c then texts + [Truncate(p.text, MaxEntryChars)] else texts
  }

  /** The log the category would be if it were the only one. */
  function LogOf(pushes: seq<Pushed>, c: Category, maxEntries: nat): Log { AppendAll(TextsOf(pushes, c), maxEntries) }

  function DroppedAltogether(pushes: seq<Pushed>, maxEntries: nat): nat {
    LogOf(pushes, JsError, maxEntries).dropped + LogOf(pushes, FailedRequest, maxEntries).dropped
    + LogOf(pushes, ConsoleError, maxEntries).dropped + LogOf(pushes, ConsoleMessage, maxEntries).dropped
  }

  lemma AllTextsArePushes(pushes: seq<Pushed>)
    ensures |TextsOf(pushes, JsError)| + |TextsOf(pushes, FailedRequest)|
          + |TextsOf(pushes, ConsoleError)| + |TextsOf(pushes, ConsoleMessage)| == |pushes|
  {
  }

  /** `dropped` only adds up, so who else adds to it does not matter. */
  lemma DroppedIsShared(log: Log, other: nat, text: string, maxEntries: nat)
    ensures var a, b := Append(log, text, maxEntries), Append(log.(dropped := other), text, maxEntries);
            a.entries == b.entries && a.dropped - log.dropped == b.dropped - other
  {
  }

  lemma PushMovesOneLog(pushes: seq<Pushed>, p: Pushed, c: Category, maxEntries: nat)
    ensures LogOf(pushes + [p], c, maxEntries)
         == if c == p.category then Append(LogOf(pushes, c, maxEntries), Truncate(p.text, MaxEntryChars), maxEntries)
            else LogOf(pushes, c, maxEntries)
  {
    assert (pushes + [p])[..|pushes|] == pushes;
    var texts, text := TextsOf(pushes, c), Truncate(p.text, MaxEntryChars);
    assert (texts + [text])[..|texts|] == texts;
  }

  lemma PushMovesTheBuffer(pushes: seq<Pushed>, p: Pushed, maxEntries: nat)
    ensures var before := BufferAfter(pushes, maxEntries);
            var log := Append(Log(EntriesOf(before, p.category), before.dropped), Truncate(p.text, MaxEntryChars), maxEntries);
            BufferAfter(pushes + [p], maxEntries) == Contents(before.entries[p.category := log.entries], log.dropped)
  {
    assert (pushes + [p])[..|pushes|] == pushes;
  }

  lemma {:induction false} EntriesAreTheLogs(pushes: seq<Pushed>, c: Category, maxEntries: nat)
    ensures EntriesOf(BufferAfter(pushes, maxEntries), c) == LogOf(pushes, c, maxEntries).entries
  {
    if pushes != [] {
      var earlier, p := pushes[..|pushes| - 1], pushes[|pushes| - 1];
      assert pushes == earlier + [p];
      EntriesAreTheLogs(earlier, c, maxEntries);
      PushMovesTheBuffer(earlier, p, maxEntries);
      PushMovesOneLog(earlier, p, c, maxEntries);
      var log := LogOf(earlier, c, maxEntries);
      DroppedIsShared(log, BufferAfter(earlier, maxEntries).dropped, Truncate(p.text, MaxEntryChars), maxEntries);
    }
  }

  lemma DroppedMoves(pushes: seq<Pushed>, p: Pushed, maxEntries: nat)
    ensures DroppedAltogether(pushes + [p], maxEntries) - DroppedAltogether(pushes, maxEntries)
         == LogOf(pushes + [p], p.category, maxEntries).dropped - LogOf(pushes, p.category, maxEntries).dropped
  {
    PushMovesOneLog(pushes, p, JsError, maxEntries);
    PushMovesOneLog(pushes, p, FailedRequest, maxEntries);
    PushMovesOneLog(pushes, p, ConsoleError, maxEntries);
    PushMovesOneLog(pushes, p, ConsoleMessage, maxEntries);
  }

  lemma {:induction false} DroppedAddsUp(pushes: seq<Pushed>, maxEntries: nat)
    ensures BufferAfter(pushes, maxEntries).dropped == DroppedAltogether(pushes, maxEntries)
  {
    if pushes != [] {
      var earlier, p := pushes[..|pushes| - 1], pushes[|pushes| - 1];
      assert pushes == earlier + [p];
      DroppedAddsUp(earlier, maxEntries);
      PushMovesTheBuffer(earlier, p, maxEntries);
      EntriesAreTheLogs(earlier, p.category, maxEntries);
      PushMovesOneLog(earlier, p, p.category, maxEntries);
      DroppedMoves(earlier, p, maxEntries);
      var log := LogOf(earlier, p.category, maxEntries);
      DroppedIsShared(log, BufferAfter(earlier, maxEntries).dropped, Truncate(p.text, MaxEntryChars), maxEntries);
    }
  }

  /** The categories do not disturb each other; only `dropped` is shared. */
  lemma CategoriesAreIndependent(pushes: seq<Pushed>, maxEntries: nat)
    ensures var b := BufferAfter(pushes, maxEntries);
            && (forall c :: EntriesOf(b, c) == LogOf(pushes, c, maxEntries).entries)
            && b.dropped == DroppedAltogether(pushes, maxEntries)
  {
    forall c ensures EntriesOf(BufferAfter(pushes, maxEntries), c) == LogOf(pushes, c, maxEntries).entries {
      EntriesAreTheLogs(pushes, c, maxEntries);
    }
    DroppedAddsUp(pushes, maxEntries);
  }

  /** No push is lost: what can be read back from the four categories and `dropped` add up to the
      pushes made. */
  lemma BufferConservesPushes(pushes: seq<Pushed>, maxEntries: nat)
    requires |pushes| < UsizeLimit
    requires forall p :: p in pushes ==> !Marked(Truncate(p.text, MaxEntryChars))
    ensures var b := BufferAfter(pushes, maxEntries);
            && (forall c :: Encodes(Log(EntriesOf(b, c), TallyOf(pushes, c, maxEntries).dropped), TallyOf(pushes, c, maxEntries)))
            && (forall c :: Tells(TallyOf(pushes, c, maxEntries), TextsOf(pushes, c), maxEntries))
            && Read(pushes, JsError, maxEntries) + Read(pushes, FailedRequest, maxEntries)
               + Read(pushes, ConsoleError, maxEntries) + Read(pushes, ConsoleMessage, maxEntries)
               + b.dropped == |pushes|
  {
    CategoriesAreIndependent(pushes, maxEntries);
    AllTextsArePushes(pushes);
    forall c: Category
      ensures Encodes(AppendAll(TextsOf(pushes, c), maxEntries), TallyOf(pushes, c, maxEntries))
      ensures Tells(TallyOf(pushes, c, maxEntries), TextsOf(pushes, c), maxEntries)
    {
      AppendAllEncodes(TextsOf(pushes, c), maxEntries);
      TallyTellsTheTruth(TextsOf(pushes, c), maxEntries);
    }
  }

  function TallyOf(pushes: seq<Pushed>, c: Category, maxEntries: nat): Tally<string> {
    AddAll(TextsOf(pushes, c), maxEntries)
  }

  function Read(pushes: seq<Pushed>, c: Category, maxEntries: nat): nat {
    Sum(TallyOf(pushes, c, maxEntries).items)
  }
}
