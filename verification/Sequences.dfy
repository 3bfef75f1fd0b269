/** Orders without repetition, sub-sequences, and the trimming of text. */
module Sequences {

  ghost predicate Distinct<T>(s: seq<T>) {
    forall i, j :: 0 <= i < j < |s| ==> s[i] != s[j]
  }

  /** The different values, in order of first appearance. */
  function FirstSeen<T(==,!new)>(s: seq<T>): (seen: seq<T>)
    ensures forall t :: t in seen <==> t in s
    ensures Distinct(seen)
  {
    if s == [] then []
    else
      var seen := FirstSeen(s[..|s| - 1]);
      var last := s[|s| - 1];
      assert s == s[..|s| - 1] + [last];
      if last in seen then seen else seen + [last]
  }

  lemma FirstSeenStep<T(!new)>(s: seq<T>, last: T)
    ensures FirstSeen(s + [last]) == if last in s then FirstSeen(s) else FirstSeen(s) + [last]
  {
    assert (s + [last])[..|s|] == s;
  }

  function Filter<T>(s: seq<T>, keep: T -> bool): seq<T> {
    if s == [] then []
    else if keep(s[|s| - 1]) then Filter(s[..|s| - 1], keep) + [s[|s| - 1]]
    else Filter(s[..|s| - 1], keep)
  }

  lemma FilterStep<T>(s: seq<T>, n: nat, keep: T -> bool)
    requires n < |s|
    ensures Filter(s[..n + 1], keep) == if keep(s[n]) then Filter(s[..n], keep) + [s[n]] else Filter(s[..n], keep)
  {
    assert s[..n + 1][..n] == s[..n];
  }

  lemma {:induction false} FilterAppend<T>(a: seq<T>, b: seq<T>, keep: T -> bool)
    ensures Filter(a + b, keep) == Filter(a, keep) + Filter(b, keep)
  {
    if b == [] {
      assert a + b == a;
    } else {
      assert (a + b)[..|a + b| - 1] == a + b[..|b| - 1];
      FilterAppend(a, b[..|b| - 1], keep);
    }
  }

  lemma {:induction false} FilterHolds<T>(s: seq<T>, keep: T -> bool)
    ensures forall x :: x in Filter(s, keep) <==> x in s && keep(x)
  {
    if s != [] {
      FilterHolds(s[..|s| - 1], keep);
      assert s == s[..|s| - 1] + [s[|s| - 1]];
    }
  }

  lemma {:induction false} FilterAll<T>(s: seq<T>, keep: T -> bool)
    requires forall x :: x in s ==> keep(x)
    ensures Filter(s, keep) == s
  {
    if s != [] { FilterAll(s[..|s| - 1], keep); }
  }

  lemma {:induction false} FilterNone<T>(s: seq<T>, keep: T -> bool)
    requires forall x :: x in s ==> !keep(x)
    ensures Filter(s, keep) == []
  {
    if s != [] { FilterNone(s[..|s| - 1], keep); }
  }

  function FirstOf<T>(s: seq<T>, n: nat): seq<T> { if |s| <= n then s else s[..n] }

  // ----- stable sorting -----

  function Inserted<T>(x: T, sorted: seq<T>, before: (T, T) -> bool): seq<T> {
    if sorted == [] || !before(sorted[0], x) then [x] + sorted
    else [sorted[0]] + Inserted(x, sorted[1..], before)
  }

  function Sorted<T>(s: seq<T>, before: (T, T) -> bool): seq<T> {
    if s == [] then [] else Inserted(s[0], Sorted(s[1..], before), before)
  }

  ghost predicate InOrder<T>(s: seq<T>, before: (T, T) -> bool) {
    forall i, j :: 0 <= i < j < |s| ==> !before(s[j], s[i])
  }

  /** What a sort may rely on. */
  ghost predicate IsWeakOrder<T(!new)>(before: (T, T) -> bool) {
    && (forall a, b :: before(a, b) ==> !before(b, a))
    && (forall a, b, c :: !before(b, a) && !before(c, b) ==> !before(c, a))
  }

  lemma {:induction false} InsertedKeepsAll<T>(x: T, sorted: seq<T>, before: (T, T) -> bool)
    ensures multiset(Inserted(x, sorted, before)) == multiset(sorted) + multiset{x}
  {
    if sorted != [] {
      InsertedKeepsAll(x, sorted[1..], before);
      assert sorted == [sorted[0]] + sorted[1..];
    }
  }

  lemma {:induction false} InsertedIsInOrder<T(!new)>(x: T, sorted: seq<T>, before: (T, T) -> bool)
    requires IsWeakOrder(before) && InOrder(sorted, before)
    ensures InOrder(Inserted(x, sorted, before), before)
  {
    if sorted != [] && before(sorted[0], x) {
      var rest := Inserted(x, sorted[1..], before);
      InsertedIsInOrder(x, sorted[1..], before);
      InsertedKeepsAll(x, sorted[1..], before);
      forall j | 0 <= j < |rest| ensures !before(rest[j], sorted[0]) {
        assert rest[j] in multiset(rest);
        assert rest[j] == x || rest[j] in sorted[1..];
      }
    }
  }

  lemma {:induction false} SortedKeepsAll<T>(s: seq<T>, before: (T, T) -> bool)
    ensures multiset(Sorted(s, before)) == multiset(s)
  {
    if s != [] {
      SortedKeepsAll(s[1..], before);
      InsertedKeepsAll(s[0], Sorted(s[1..], before), before);
      assert s == [s[0]] + s[1..];
    }
  }

  lemma {:induction false} SortedIsInOrder<T(!new)>(s: seq<T>, before: (T, T) -> bool)
    requires IsWeakOrder(before)
    ensures InOrder(Sorted(s, before), before)
  {
    if s != [] {
      SortedIsInOrder(s[1..], before);
      InsertedIsInOrder(s[0], Sorted(s[1..], before), before);
    }
  }

  lemma {:induction false} OnceEach<T>(s: seq<T>, x: T)
    requires Distinct(s)
    ensures multiset(s)[x] <= 1
  {
    if s != [] {
      OnceEach(s[1..], x);
      assert s == [s[0]] + s[1..];
    }
  }

  lemma ReorderedKeepsDistinct<T>(s: seq<T>, reordered: seq<T>)
    requires Distinct(s) && multiset(reordered) == multiset(s)
    ensures Distinct(reordered)
    ensures forall x :: x in reordered <==> x in s
  {
    forall x ensures x in reordered <==> x in s {
      assert x in multiset(reordered) <==> x in multiset(s);
    }
    forall i, j | 0 <= i < j < |reordered| ensures reordered[i] != reordered[j] {
      OnceEach(s, reordered[j]);
      assert reordered == reordered[..j] + [reordered[j]] + reordered[j + 1..];
      assert multiset(reordered)[reordered[j]]
          == multiset(reordered[..j])[reordered[j]] + 1 + multiset(reordered[j + 1..])[reordered[j]];
      assert reordered[i] in reordered[..j];
    }
  }

  lemma {:induction false} DistinctCount<T>(s: seq<T>)
    requires Distinct(s)
    ensures |set x | x in s| == |s|
  {
    if s != [] {
      DistinctCount(s[1..]);
      assert (set x | x in s) == (set x | x in s[1..]) + {s[0]};
    }
  }

  // ----- white space at the ends of a text -----

  predicate IsWhitespace(c: char) {
    var n := c as int;
    || 0x09 <= n <= 0x0D || n == 0x20 || n == 0x85 || n == 0xA0 || n == 0x1680
    || 0x2000 <= n <= 0x200A || n == 0x2028 || n == 0x2029 || n == 0x202F || n == 0x205F || n == 0x3000
  }

  function TrimStart(s: string): string {
    if s != [] && IsWhitespace(s[0]) then TrimStart(s[1..]) else s
  }

  function TrimEnd(s: string): string {
    if s != [] && IsWhitespace(s[|s| - 1]) then TrimEnd(s[..|s| - 1]) else s
  }

  function Trim(s: string): string { TrimEnd(TrimStart(s)) }

  predicate Trimmed(s: string) {
    s != [] ==> !IsWhitespace(s[0]) && !IsWhitespace(s[|s| - 1])
  }

  lemma {:induction false} TrimStartIsSuffix(s: string)
    ensures exists i :: 0 <= i <= |s| && TrimStart(s) == s[i..]
    ensures TrimStart(s) != [] ==> !IsWhitespace(TrimStart(s)[0])
  {
    if s != [] && IsWhitespace(s[0]) {
      TrimStartIsSuffix(s[1..]);
      var i :| 0 <= i <= |s[1..]| && TrimStart(s[1..]) == s[1..][i..];
      assert TrimStart(s) == s[i + 1..];
    } else {
      assert TrimStart(s) == s[0..];
    }
  }

  lemma {:induction false} TrimEndIsPrefix(s: string)
    ensures |TrimEnd(s)| <= |s| && TrimEnd(s) == s[..|TrimEnd(s)|]
    ensures TrimEnd(s) != [] ==> !IsWhitespace(TrimEnd(s)[|TrimEnd(s)| - 1])
  {
    if s != [] && IsWhitespace(s[|s| - 1]) { TrimEndIsPrefix(s[..|s| - 1]); }
  }

  /** Nothing but white space is missing at the ends, and none is left there. */
  predicate IsTrimOf(s: string, kept: string) {
    Trimmed(kept) && exists i: nat, j: nat :: i <= j <= |s| && kept == s[i..j] && BlankOutside(s, i, j)
  }

  predicate BlankOutside(s: string, i: nat, j: nat) {
    forall k :: 0 <= k < |s| && !(i <= k < j) ==> IsWhitespace(s[k])
  }

  lemma {:induction false} TrimStartDropsBlanks(s: string)
    ensures |TrimStart(s)| <= |s|
    ensures var i := |s| - |TrimStart(s)|; TrimStart(s) == s[i..] && BlankOutside(s, i, |s|)
  {
    if s != [] && IsWhitespace(s[0]) {
      TrimStartDropsBlanks(s[1..]);
      forall k | 0 < k < |s| - |TrimStart(s)| ensures IsWhitespace(s[k]) {
        assert s[1..][k - 1] == s[k];
      }
    }
  }

  lemma {:induction false} TrimEndDropsBlanks(s: string)
    ensures |TrimEnd(s)| <= |s| && BlankOutside(s, 0, |TrimEnd(s)|)
  {
    if s != [] && IsWhitespace(s[|s| - 1]) { TrimEndDropsBlanks(s[..|s| - 1]); }
  }

  lemma TrimMeans(s: string)
    ensures IsTrimOf(s, Trim(s))
  {
    TrimIsTrimmed(s);
    var rest, kept := TrimStart(s), Trim(s);
    TrimStartDropsBlanks(s);
    TrimEndDropsBlanks(rest);
    TrimEndIsPrefix(rest);
    var i := |s| - |rest|;
    var j := i + |kept|;
    assert kept == s[i..j];
    forall k | 0 <= k < |s| && !(i <= k < j) ensures IsWhitespace(s[k]) {
      if k >= j { assert rest[k - i] == s[k]; }
    }
    assert BlankOutside(s, i, j);
  }

  /** Trimming leaves a part of the text that trimming does not change. */
  lemma TrimIsTrimmed(s: string)
    ensures Trimmed(Trim(s))
    ensures forall c :: c in Trim(s) ==> c in s
  {
    TrimStartIsSuffix(s);
    TrimEndIsPrefix(TrimStart(s));
  }
}
