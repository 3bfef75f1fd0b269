/** Folding every `--disable-features=` switch of a Chromium command line into one, because Chromium
    keeps only the last. */
module LaunchArgs {
  import opened Wrappers
  import opened Sequences

  const DisableFeatures: string := "--disable-features="

  /** An operating-system string need not be text. */
  datatype Arg = Text(text: string) | Bytes(bytes: seq<bv8>)

  /** The pieces between separators; there is always one. */
  function Split(s: string, separator: char): (pieces: seq<string>)
    ensures pieces != []
  {
    if s == [] then [[]]
    else
      var rest := Split(s[1..], separator);
      if s[0] == separator then [[]] + rest else [[s[0]] + rest[0]] + rest[1..]
  }

  function Join(pieces: seq<string>, separator: char): string {
    if pieces == [] then []
    else if |pieces| == 1 then pieces[0]
    else pieces[0] + [separator] + Join(pieces[1..], separator)
  }

  function Cleaned(pieces: seq<string>): seq<string> {
    if pieces == [] then []
    else if Trim(pieces[0]) == [] then Cleaned(pieces[1..])
    else [Trim(pieces[0])] + Cleaned(pieces[1..])
  }

  function ListedFeatures(list: string): seq<string> { Cleaned(Split(list, ',')) }

  predicate IsPrefix(prefix: string, s: string) { |prefix| <= |s| && s[..|prefix|] == prefix }

  function DisabledFeatures(arg: string): Option<seq<string>> {
    if IsPrefix(DisableFeatures, arg) then Some(ListedFeatures(arg[|DisableFeatures|..])) else None
  }

  predicate IsSwitch(arg: Arg) { arg.Text? && IsPrefix(DisableFeatures, arg.text) }

  predicate IsOther(arg: Arg) { !IsSwitch(arg) }

  /** Every feature named by the switches among the arguments, in order and with repetitions. */
  function FeaturesOf(args: seq<Arg>): seq<string> {
    if args == [] then []
    else
      var last := args[|args| - 1];
      FeaturesOf(args[..|args| - 1]) + (if IsSwitch(last) then ListedFeatures(last.text[|DisableFeatures|..]) else [])
  }

  function Texts(args: seq<string>): seq<Arg> { seq(|args|, i requires 0 <= i < |args| => Text(args[i])) }

  datatype MergedArgs = MergedArgs(args: seq<Arg>, disableFeatures: Option<string>, ignoredDefaults: seq<string>)

  function IsDefaultSwitch(arg: string): bool { IsPrefix(DisableFeatures, arg) }

  function AllFeatures(defaults: seq<string>, args: seq<Arg>, extra: seq<string>): seq<string> {
    FeaturesOf(Texts(defaults)) + FeaturesOf(args) + extra
  }

  function Merged(defaults: seq<string>, args: seq<Arg>, extra: seq<string>): MergedArgs {
    if Filter(args, IsSwitch) == [] && extra == [] then MergedArgs(Filter(args, IsOther), None, [])
    else
      MergedArgs(Filter(args, IsOther),
                 Some(DisableFeatures + Join(FirstSeen(AllFeatures(defaults, args, extra)), ',')),
                 Filter(defaults, IsDefaultSwitch))
  }

  lemma FeaturesStep(args: seq<Arg>, n: nat)
    requires n < |args|
    ensures FeaturesOf(args[..n + 1])
         == if IsSwitch(args[n]) then FeaturesOf(args[..n]) + ListedFeatures(args[n].text[|DisableFeatures|..])
            else FeaturesOf(args[..n])
  {
    assert args[..n + 1][..n] == args[..n];
    assert FeaturesOf(args[..n]) + [] == FeaturesOf(args[..n]);
  }

  lemma Regroup(a: seq<string>, b: seq<string>, c: seq<string>)
    ensures (a + b) + c == a + (b + c)
  {
  }

  lemma TextsStep(args: seq<string>, n: nat)
    requires n < |args|
    ensures FeaturesOf(Texts(args[..n + 1]))
         == if IsDefaultSwitch(args[n]) then FeaturesOf(Texts(args[..n])) + ListedFeatures(args[n][|DisableFeatures|..])
            else FeaturesOf(Texts(args[..n]))
  {
    assert Texts(args[..n + 1])[..n] == Texts(args[..n]);
    assert FeaturesOf(Texts(args[..n])) + [] == FeaturesOf(Texts(args[..n]));
  }

  // ----- the merge itself -----

  method AddEach(features: seq<string>, list: seq<string>, ghost before: seq<string>) returns (more: seq<string>)
    requires features == FirstSeen(before)
    ensures more == FirstSeen(before + list)
  {
    more := features;
    assert before + list[..0] == before;
    for n := 0 to |list|
      invariant more == FirstSeen(before + list[..n])
    {
      assert before + list[..n + 1] == (before + list[..n]) + [list[n]];
      FirstSeenStep(before + list[..n], list[n]);
      if list[n] !in more { more := more + [list[n]]; }
    }
    assert list[..|list|] == list;
  }

  method MergeDisableFeatures(defaults: seq<string>, args: seq<Arg>, extra: seq<string>) returns (merged: MergedArgs)
    ensures merged == Merged(defaults, args, extra)
  {
    var ignored: seq<string> := [];
    var features: seq<string> := [];
    for n := 0 to |defaults|
      invariant ignored == Filter(defaults[..n], IsDefaultSwitch)
      invariant features == FirstSeen(FeaturesOf(Texts(defaults[..n])))
    {
      FilterStep(defaults, n, IsDefaultSwitch);
      TextsStep(defaults, n);
      var list := DisabledFeatures(defaults[n]);
      if list.Some? {
        ignored := ignored + [defaults[n]];
        features := AddEach(features, list.value, FeaturesOf(Texts(defaults[..n])));
      }
    }
    assert defaults[..|defaults|] == defaults;
    ghost var before := FeaturesOf(Texts(defaults));
    assert before + FeaturesOf([]) == before;

    var ownSources := 0;
    var kept: seq<Arg> := [];
    for n := 0 to |args|
      invariant kept == Filter(args[..n], IsOther)
      invariant ownSources == |Filter(args[..n], IsSwitch)|
      invariant features == FirstSeen(before + FeaturesOf(args[..n]))
    {
      FilterStep(args, n, IsSwitch);
      FilterStep(args, n, IsOther);
      FeaturesStep(args, n);
      if IsSwitch(args[n]) {
        ownSources := ownSources + 1;
        var list := ListedFeatures(args[n].text[|DisableFeatures|..]);
        features := AddEach(features, list, before + FeaturesOf(args[..n]));
        Regroup(before, FeaturesOf(args[..n]), list);
      } else {
        kept := kept + [args[n]];
      }
    }
    assert args[..|args|] == args;
    features := AddEach(features, extra, before + FeaturesOf(args));

    if ownSources == 0 && extra == [] {
      return MergedArgs(kept, None, []);
    }
    return MergedArgs(kept, Some(DisableFeatures + Join(features, ',')), ignored);
  }

  // ----- what Chromium makes of it -----

  predicate Clean(feature: string) { feature != [] && Trimmed(feature) && ',' !in feature }

  lemma {:induction false} SplitWithoutSeparator(s: string)
    requires ',' !in s
    ensures Split(s, ',') == [s]
  {
    if s != [] {
      SplitWithoutSeparator(s[1..]);
      assert [s[0]] + s[1..] == s;
    }
  }

  lemma {:induction false} SplitAtSeparator(a: string, rest: string)
    ensures Split(a + [','] + rest, ',') == Split(a, ',') + Split(rest, ',')
  {
    var s := a + [','] + rest;
    if a == [] {
      assert s[1..] == rest;
    } else {
      assert s[1..] == a[1..] + [','] + rest;
      SplitAtSeparator(a[1..], rest);
    }
  }

  lemma {:induction false} CleanedAppend(a: seq<string>, b: seq<string>)
    ensures Cleaned(a + b) == Cleaned(a) + Cleaned(b)
  {
    if a == [] {
      assert a + b == b;
    } else {
      assert (a + b)[1..] == a[1..] + b;
      CleanedAppend(a[1..], b);
    }
  }

  /** A list names the features of its parts in order, and a part without a comma is one feature, without
      the white space around it, unless that is all there is. */
  lemma FeaturesAreThePieces(a: string, rest: string)
    ensures ListedFeatures(a + [','] + rest) == ListedFeatures(a) + ListedFeatures(rest)
    ensures ',' !in a ==> exists kept :: IsTrimOf(a, kept) && ListedFeatures(a) == if kept == [] then [] else [kept]
  {
    SplitAtSeparator(a, rest);
    CleanedAppend(Split(a, ','), Split(rest, ','));
    if ',' !in a {
      SplitWithoutSeparator(a);
      TrimMeans(a);
      assert Cleaned([a][1..]) == [];
    }
  }

  lemma {:induction false} SplitPiecesAreWhole(s: string)
    ensures forall piece :: piece in Split(s, ',') ==> ',' !in piece
  {
    if s != [] { SplitPiecesAreWhole(s[1..]); }
  }

  lemma {:induction false} CleanedIsClean(pieces: seq<string>)
    requires forall piece :: piece in pieces ==> ',' !in piece
    ensures forall f :: f in Cleaned(pieces) ==> Clean(f)
  {
    if pieces != [] {
      TrimIsTrimmed(pieces[0]);
      CleanedIsClean(pieces[1..]);
    }
  }

  lemma ListedFeaturesAreClean(list: string)
    ensures forall f :: f in ListedFeatures(list) ==> Clean(f)
  {
    SplitPiecesAreWhole(list);
    CleanedIsClean(Split(list, ','));
  }

  lemma {:induction false} CleanFeaturesParseBack(features: seq<string>)
    requires forall f :: f in features ==> Clean(f)
    ensures ListedFeatures(Join(features, ',')) == features
  {
    if features == [] {
      assert Cleaned([[]]) == [];
      return;
    }
    assert Clean(features[0]);
    if |features| == 1 {
      SplitWithoutSeparator(features[0]);
      assert TrimStart(features[0]) == features[0];
      assert Cleaned(features[1..]) == [];
    } else {
      SplitAtSeparator(features[0], Join(features[1..], ','));
      SplitWithoutSeparator(features[0]);
      CleanFeaturesParseBack(features[1..]);
      assert TrimStart(features[0]) == features[0];
      var pieces := [features[0]] + Split(Join(features[1..], ','), ',');
      assert pieces[1..] == Split(Join(features[1..], ','), ',');
    }
  }

  /** A list of features survives being written into a switch and read back exactly when every one
      of them is trimmed, non-empty and free of commas. */
  lemma FeaturesParseBackIff(features: seq<string>)
    ensures ListedFeatures(Join(features, ',')) == features <==> forall f :: f in features ==> Clean(f)
  {
    if forall f :: f in features ==> Clean(f) {
      CleanFeaturesParseBack(features);
    } else {
      ListedFeaturesAreClean(Join(features, ','));
    }
  }

  lemma {:induction false} FeaturesOfAreClean(args: seq<Arg>)
    ensures forall f :: f in FeaturesOf(args) ==> Clean(f)
  {
    if args != [] {
      FeaturesOfAreClean(args[..|args| - 1]);
      var last := args[|args| - 1];
      if IsSwitch(last) { ListedFeaturesAreClean(last.text[|DisableFeatures|..]); }
    }
  }

  /** The defaults that are not ignored, the caller's arguments, the merged switch. */
  function CommandLine(defaults: seq<string>, merged: MergedArgs): seq<Arg> {
    Texts(Filter(defaults, (d: string) => d !in merged.ignoredDefaults))
    + merged.args
    + (if merged.disableFeatures.Some? then [Text(merged.disableFeatures.value)] else [])
  }

  /** Chromium's reading: the last switch wins. */
  function EffectiveFeatures(commandLine: seq<Arg>): Option<seq<string>> {
    if commandLine == [] then None
    else if IsSwitch(commandLine[|commandLine| - 1]) then
      DisabledFeatures(commandLine[|commandLine| - 1].text)
    else EffectiveFeatures(commandLine[..|commandLine| - 1])
  }

  lemma {:induction false} FilterOfTexts(defaults: seq<string>, ignored: seq<string>)
    requires forall d :: d in defaults ==> (d in ignored <==> IsDefaultSwitch(d))
    ensures Texts(Filter(defaults, (d: string) => d !in ignored)) == Filter(Texts(defaults), IsOther)
  {
    if defaults != [] {
      var shorter := defaults[..|defaults| - 1];
      FilterOfTexts(shorter, ignored);
      assert Texts(defaults)[..|defaults| - 1] == Texts(shorter);
    }
  }

  predicate DisablesFeatures(arg: Arg) { arg.Text? && "--disable-features=" <= arg.text }

  /** There is a merged switch exactly when someone beyond the library asks for one: an argument of the
      caller, or an extra feature. */
  lemma MergedIff(defaults: seq<string>, args: seq<Arg>, extra: seq<string>)
    ensures var merged := Merged(defaults, args, extra);
            && (merged.disableFeatures.Some? <==> extra != [] || exists a :: a in args && DisablesFeatures(a))
            && (merged.disableFeatures.Some? ==> DisablesFeatures(Text(merged.disableFeatures.value)))
            && (forall a :: a in merged.args <==> a in args && !DisablesFeatures(a))
            && (forall d :: d in merged.ignoredDefaults <==>
                  merged.disableFeatures.Some? && d in defaults && DisablesFeatures(Text(d)))
  {
    FilterHolds(args, IsSwitch);
    FilterHolds(args, IsOther);
    FilterHolds(defaults, IsDefaultSwitch);
    forall a ensures IsSwitch(a) <==> DisablesFeatures(a) {
    }
    var switches := Filter(args, IsSwitch);
    if switches != [] { assert switches[0] in switches; }
  }

  /** Without a switch to add nothing changes. */
  lemma UnmergedIsUnchanged(defaults: seq<string>, args: seq<Arg>, extra: seq<string>)
    requires Merged(defaults, args, extra).disableFeatures.None?
    ensures CommandLine(defaults, Merged(defaults, args, extra)) == Texts(defaults) + args
    ensures extra == [] && forall a :: a in args ==> IsOther(a)
  {
    FilterHolds(args, IsSwitch);
    assert forall a :: a in Filter(args, IsSwitch) <==> a in args && IsSwitch(a);
    FilterAll(args, IsOther);
    FilterAll(defaults, (d: string) => d !in Merged(defaults, args, extra).ignoredDefaults);
  }

  lemma MergedCommandLine(defaults: seq<string>, args: seq<Arg>, extra: seq<string>)
    requires Merged(defaults, args, extra).disableFeatures.Some?
    ensures var merged := Merged(defaults, args, extra);
            CommandLine(defaults, merged)
              == Filter(Texts(defaults) + args, IsOther) + [Text(merged.disableFeatures.value)]
  {
    var merged := Merged(defaults, args, extra);
    FilterHolds(defaults, IsDefaultSwitch);
    FilterOfTexts(defaults, merged.ignoredDefaults);
    FilterAppend(Texts(defaults), args, IsOther);
  }

  /** With one: the command line holds exactly one switch, everything else in its old order; and
      read under last-switch-wins it disables what all sources together asked for, in that order
      and without repetition, exactly when every feature of the caller's own list is well formed. */
  lemma MergeKeepsEveryFeature(defaults: seq<string>, args: seq<Arg>, extra: seq<string>)
    requires Merged(defaults, args, extra).disableFeatures.Some?
    ensures var line := CommandLine(defaults, Merged(defaults, args, extra));
            && |Filter(line, IsSwitch)| == 1 && IsSwitch(line[|line| - 1])
            && Filter(line, IsOther) == Filter(Texts(defaults) + args, IsOther)
            && (EffectiveFeatures(line) == Some(FirstSeen(AllFeatures(defaults, args, extra)))
                <==> forall f :: f in extra ==> Clean(f))
  {
    var merged := Merged(defaults, args, extra);
    var line := CommandLine(defaults, merged);
    var others := Filter(Texts(defaults) + args, IsOther);
    var switch := Text(merged.disableFeatures.value);
    MergedCommandLine(defaults, args, extra);
    FilterHolds(Texts(defaults) + args, IsOther);
    FilterAll(others, IsOther);
    FilterNone(others, IsSwitch);
    assert line == others + [switch] && line[..|line| - 1] == others;
    var features := FirstSeen(AllFeatures(defaults, args, extra));
    assert switch.text[|DisableFeatures|..] == Join(features, ',');
    FeaturesParseBackIff(features);
    FeaturesOfAreClean(Texts(defaults));
    FeaturesOfAreClean(args);
  }
}
