/**
 Keeping a channel's model list in step with its upstream (controller/channel_upstream_update.go).

 A detection compares the local list with the fetched one and stages pending additions and removals;
 applying a selection moves staged names into or out of the comma-separated `models` field and maintains
 the ignore list.  Regular-expression matching is a parameter of the model.
 */
module UpstreamModels {
  import opened Common
  import opened Text
  import opened ModelNames

  /** `matches(pattern, name)`: the pattern compiles and matches. */
  type Matcher = (string, string) -> bool

  const REGEX_PREFIX := "regex:"

  /** The settings fields the reconciliation reads and writes. */
  datatype Settings = Settings(
    ignored: seq<string>, detected: seq<string>, removed: seq<string>, lastCheck: int, autoSync: bool)

  datatype ChannelState = ChannelState(models: string, mapping: map<string, string>, settings: Settings)

  /** Channel.GetModels */
  function GetModels(models: string): seq<string> {
    if models == "" then [] else Split(TrimChar(models, ','), ',')
  }

  function Local(c: ChannelState): (r: seq<string>)
    ensures Normal(r)
  {
    Normalize(GetModels(c.models))
  }

  predicate IsRegexRule(rule: string) {
    REGEX_PREFIX <= rule
  }

  predicate RuleHides(rule: string, name: string, matches: Matcher) {
    if IsRegexRule(rule) then matches(TrimSpace(rule[|REGEX_PREFIX|..]), name) else rule == name
  }

  predicate Hidden(rules: seq<string>, name: string, matches: Matcher) {
    exists rule :: rule in rules && RuleHides(rule, name, matches)
  }

  // ---------------------------------------------------------------- detection

  /** Upstream names that are not proposed: known locally, target of a redirect, or ignored. */
  function NotProposed(local: seq<string>, upstream: seq<string>, ignored: seq<string>,
                       mapping: map<string, string>, matches: Matcher): set<string>
  {
    set name | name in upstream &&
               (name in local || name in mapping.Values || Hidden(Normalize(ignored), name, matches))
  }

  function CollectPending(local: seq<string>, upstream: seq<string>, ignored: seq<string>,
                          mapping: map<string, string>, matches: Matcher): (r: (seq<string>, seq<string>))
    ensures Normal(r.0) && Normal(r.1)
    ensures forall name :: name in r.0 <==>
                             && name in Normalize(upstream) && name !in Normalize(local)
                             && name !in mapping.Values && !Hidden(Normalize(ignored), name, matches)
    ensures forall name :: name in r.1 <==>
                             name in Normalize(local) && name !in mapping.Keys && name !in Normalize(upstream)
  {
    var mine, theirs := Normalize(local), Normalize(upstream);
    var add := Without(theirs, NotProposed(mine, theirs, ignored, mapping, matches));
    var remove := Without(mine, mapping.Keys + Names(theirs));
    NormalizeNormal(add);
    NormalizeNormal(remove);
    (Normalize(add), Normalize(remove))
  }

  /**
   The pending additions are exactly the upstream names that are new, no redirect target and not ignored, each once
   and in upstream order; the removals exactly the local names that are neither upstream nor redirected, in local
   order.
   */
  lemma PendingIs(local: seq<string>, upstream: seq<string>, ignored: seq<string>,
                  mapping: map<string, string>, matches: Matcher)
    ensures var (add, remove) := CollectPending(local, upstream, ignored, mapping, matches);
            && Normal(add) && Subsequence(add, Normalize(upstream))
            && Normal(remove) && Subsequence(remove, Normalize(local))
            && (forall name :: name in add <==>
                  && name in Normalize(upstream) && name !in Normalize(local)
                  && name !in mapping.Values && !Hidden(Normalize(ignored), name, matches))
            && (forall name :: name in remove <==>
                  name in Normalize(local) && name !in mapping.Keys && name !in Normalize(upstream))
  {
    var mine, theirs := Normalize(local), Normalize(upstream);
    var hidden := NotProposed(mine, theirs, ignored, mapping, matches);
    var gone := mapping.Keys + Names(theirs);
    OnlyKeepsOrder(theirs, Names(theirs) - hidden);
    OnlyKeepsOrder(mine, Names(mine) - gone);
    NormalizeNormal(Without(theirs, hidden));
    NormalizeNormal(Without(mine, gone));
  }

  function Throttled(c: ChannelState, now: int, minInterval: int, force: bool): bool {
    !force && c.settings.lastCheck > 0 && now - c.settings.lastCheck < minInterval
  }

  /** The state checkAndPersistChannelUpstreamModelUpdates leaves; `fetched` is None when the fetch failed. */
  function Detect(c: ChannelState, fetched: Option<seq<string>>, now: int, minInterval: int,
                  force: bool, allowAuto: bool, matches: Matcher): ChannelState
  {
    if Throttled(c, now, minInterval, force) then c
    else if fetched.None? then c.(settings := c.settings.(lastCheck := now))
    else
      var (add, remove) := CollectPending(GetModels(c.models), fetched.value, c.settings.ignored, c.mapping, matches);
      var auto := allowAuto && c.settings.autoSync && |add| > 0;
      var merged := Merge(Local(c), add);
      var models := if auto && |merged| > |Local(c)| then Join(merged, ',') else c.models;
      c.(models := models,
         settings := c.settings.(lastCheck := now, detected := if auto then [] else add, removed := remove))
  }

  // ---------------------------------------------------------------- applying a selection

  datatype Selection = Selection(add: seq<string>, ignore: seq<string>, remove: seq<string>)

  function ChosenAdds(c: ChannelState, sel: Selection): (r: seq<string>)
    ensures Normal(r)
  {
    Intersect(sel.add, Normalize(c.settings.detected))
  }

  function ChosenIgnores(c: ChannelState, sel: Selection): (r: seq<string>)
    ensures Normal(r)
  {
    Intersect(sel.ignore, Normalize(c.settings.detected))
  }

  function ChosenRemoves(c: ChannelState, sel: Selection): (r: seq<string>)
    ensures Normal(r)
  {
    Subtract(Intersect(sel.remove, Normalize(c.settings.removed)), ChosenAdds(c, sel))
  }

  /** The model list before it is written back. */
  function NextModels(c: ChannelState, sel: Selection): (r: seq<string>)
    ensures Normal(r)
  {
    ApplySelected(Local(c), ChosenAdds(c, sel), ChosenRemoves(c, sel))
  }

  /** The state applyChannelUpstreamModelUpdates leaves. */
  function Apply(c: ChannelState, sel: Selection, now: int): ChannelState {
    var add, ignore, remove := ChosenAdds(c, sel), ChosenIgnores(c, sel), ChosenRemoves(c, sel);
    var next := NextModels(c, sel);
    var widened := Merge(c.settings.ignored, ignore);
    var ignored := if |add| > 0 then Subtract(widened, add) else widened;
    c.(models := if next != Local(c) then Join(next, ',') else c.models,
       settings := c.settings.(ignored := ignored,
                               detected := Subtract(Normalize(c.settings.detected), add + ignore),
                               removed := Subtract(Normalize(c.settings.removed), remove),
                               lastCheck := now))
  }

  // ---------------------------------------------------------------- writing and reading the models field

  predicate CommaFree(names: seq<string>) {
    forall name :: name in names ==> ',' !in name
  }

  /** The names one gets back after writing `names` to the comma-separated field. */
  function Stored(names: seq<string>): seq<string> {
    if names == [] then [] else Trimmed(Split(names[0], ',')) + Stored(names[1..])
  }

  lemma {:induction false} TrimmedSplitJoin(names: seq<string>)
    requires names != []
    ensures Trimmed(Split(Join(names, ','), ',')) == Stored(names)
  {
    if |names| == 1 {
      assert Stored(names[1..]) == [];
    } else {
      SplitConcat(names[0], Join(names[1..], ','), ',');
      TrimmedConcat(Split(names[0], ','), Split(Join(names[1..], ','), ','));
      TrimmedSplitJoin(names[1..]);
    }
  }

  lemma {:induction false} TrimmedSplitTrim(s: string)
    ensures Trimmed(Split(TrimChar(s, ','), ',')) == Trimmed(Split(s, ','))
    decreases |s|
  {
    if s == "" {
    } else if s[0] == ',' {
      TrimmedSplitTrim(s[1..]);
      TrimmedConcat([""], Split(s[1..], ','));
    } else if s[|s| - 1] == ',' {
      var front := s[..|s| - 1];
      TrimmedSplitTrim(front);
      assert s == front + [','] + "";
      SplitConcat(front, "", ',');
      TrimmedConcat(Split(front, ','), [""]);
    }
  }

  lemma ReadBack(names: seq<string>)
    ensures Normalize(GetModels(Join(names, ','))) == Uniq(Stored(names))
  {
    var s := Join(names, ',');
    if names != [] {
      TrimmedSplitJoin(names);
      TrimmedSplitTrim(s);
      if s == "" {
        assert Trimmed([""]) == [];
      }
    }
  }

  lemma {:induction false} StoredCommaFree(names: seq<string>)
    requires CommaFree(names) && forall x :: x in names ==> Clean(x)
    ensures Stored(names) == names
  {
    if names != [] {
      assert names[0] in names && Clean(names[0]) && forall x :: x in names[1..] ==> x in names;
      SplitWhole(names[0], ',');
      TrimmedFixed([names[0]]);
      StoredCommaFree(names[1..]);
      assert names == [names[0]] + names[1..];
    }
  }

  /** Writing and reading back is the identity exactly on lists without commas. */
  lemma ReadBackExactly(names: seq<string>)
    requires Normal(names)
    ensures Normalize(GetModels(Join(names, ','))) == names <==> CommaFree(names)
  {
    ReadBack(names);
    if CommaFree(names) {
      StoredCommaFree(names);
      UniqFixed(names);
    } else {
      StoredHasNoComma(names);
      var name :| name in names && ',' in name;
      assert name !in Uniq(Stored(names));
    }
  }

  lemma {:induction false} StoredHasNoComma(names: seq<string>)
    ensures CommaFree(Stored(names))
  {
    if names != [] {
      SplitParts(names[0], ',');
      TrimmedHasNoComma(Split(names[0], ','));
      StoredHasNoComma(names[1..]);
    }
  }

  lemma {:induction false} TrimmedHasNoComma(xs: seq<string>)
    requires CommaFree(xs)
    ensures CommaFree(Trimmed(xs))
  {
    if xs != [] {
      assert xs[0] in xs && forall x :: x in xs[1..] ==> x in xs;
      TrimmedHasNoComma(xs[1..]);
    }
  }

  lemma LocalHasNoComma(c: ChannelState)
    ensures CommaFree(Local(c))
  {
    if c.models != "" {
      SplitParts(TrimChar(c.models, ','), ',');
      TrimmedHasNoComma(GetModels(c.models));
    }
  }

  // ---------------------------------------------------------------- one round reaches a fixed point

  function Everything(c: ChannelState): Selection {
    Selection(c.settings.detected, [], c.settings.removed)
  }

  /** A forced detection without auto-sync. */
  function Review(c: ChannelState, upstream: seq<string>, now: int, matches: Matcher): ChannelState {
    Detect(c, Some(upstream), now, 0, true, false, matches)
  }

  /** Some upstream name is hidden only by ignore rules that are themselves about to be added as models. */
  predicate HiddenOnlyByAdded(c: ChannelState, upstream: seq<string>, added: seq<string>, matches: Matcher) {
    exists name :: name in Normalize(upstream) && name !in Local(c) && name !in c.mapping.Values
                   && Hidden(Normalize(c.settings.ignored), name, matches)
                   && !Hidden(Without(Normalize(c.settings.ignored), Names(added)), name, matches)
  }

  lemma HiddenBySubset(rules: seq<string>, fewer: seq<string>, name: string, matches: Matcher)
    requires forall rule :: rule in fewer ==> rule in rules
    requires !Hidden(rules, name, matches)
    ensures !Hidden(fewer, name, matches)
  {
  }

  /** Selecting everything that is pending selects exactly the pending lists. */
  lemma EverythingIsChosen(d: ChannelState)
    requires Normal(d.settings.detected) && Normal(d.settings.removed)
    requires forall name :: name in d.settings.removed ==> name !in d.settings.detected
    ensures ChosenAdds(d, Everything(d)) == d.settings.detected
    ensures ChosenRemoves(d, Everything(d)) == d.settings.removed
    ensures ChosenIgnores(d, Everything(d)) == []
  {
    var add, remove := d.settings.detected, d.settings.removed;
    NormalizeNormal(add);
    NormalizeNormal(remove);
    OnlyAll(add, Names(add));
    OnlyAll(remove, Names(remove));
    OnlyAll(remove, Names(remove) - Names(add));
  }

  /** What applying everything leaves of the ignore list: the rules that were not added as models. */
  lemma EverythingKeepsRules(d: ChannelState, now: int)
    requires Normal(d.settings.detected) && Normal(d.settings.removed)
    requires forall name :: name in d.settings.removed ==> name !in d.settings.detected
    ensures Normalize(Apply(d, Everything(d), now).settings.ignored) ==
            Without(Normalize(d.settings.ignored), Names(d.settings.detected))
  {
    var add, ignored := d.settings.detected, Normalize(d.settings.ignored);
    EverythingIsChosen(d);
    NormalizeNormal(add);
    NormalizeNormal([]);
    assert Merge(d.settings.ignored, []) == ignored;
    NormalizeNormal(ignored);
    NormalizeNormal(Without(ignored, Names(add)));
    if add == [] {
      OnlyAll(ignored, Names(ignored) - Names(add));
    }
  }

  /** What applying everything that was just staged leaves in the two lists a detection looks at. */
  lemma ApplyEverything(c: ChannelState, upstream: seq<string>, now: int, matches: Matcher)
    ensures var d := Review(c, upstream, now, matches);
            var add := d.settings.detected;
            var a := Apply(d, Everything(d), now);
            && ChosenAdds(d, Everything(d)) == add && ChosenRemoves(d, Everything(d)) == d.settings.removed
            && Normalize(a.settings.ignored) == Without(Normalize(c.settings.ignored), Names(add))
            && (CommaFree(add) ==> Local(a) == NextModels(d, Everything(d)))
  {
    var d := Review(c, upstream, now, matches);
    var sel := Everything(d);
    EverythingIsChosen(d);
    EverythingKeepsRules(d, now);
    if CommaFree(d.settings.detected) {
      LocalHasNoComma(c);
      NormalizeNormal(Local(d));
      NormalizeNormal(d.settings.detected);
      NormalizeNormal(d.settings.removed);
      ReadBackExactly(NextModels(d, sel));
    }
  }

  /** The names a detection stages. */
  lemma FirstReview(c: ChannelState, upstream: seq<string>, now: int, matches: Matcher, name: string)
    ensures var d := Review(c, upstream, now, matches);
            && (name in d.settings.detected <==>
                  && name in Normalize(upstream) && name !in Local(c)
                  && name !in c.mapping.Values && !Hidden(Normalize(c.settings.ignored), name, matches))
            && (name in d.settings.removed <==>
                  name in Local(c) && name !in c.mapping.Keys && name !in Normalize(upstream))
  {
  }

  /** The names the second detection stages, in terms of the first state. */
  lemma SecondReview(c: ChannelState, upstream: seq<string>, now: int, matches: Matcher, name: string)
    ensures var d := Review(c, upstream, now, matches);
            var add, remove := d.settings.detected, d.settings.removed;
            var a := Apply(d, Everything(d), now);
            var e := Review(a, upstream, now, matches);
            var kept := Without(Normalize(c.settings.ignored), Names(add));
            && (name in e.settings.detected <==>
                  && name in Normalize(upstream) && name !in Local(a)
                  && name !in c.mapping.Values && !Hidden(kept, name, matches))
            && (name in e.settings.removed <==>
                  name in Local(a) && name !in c.mapping.Keys && name !in Normalize(upstream))
            && (',' in name ==> name !in Local(a))
            && (CommaFree(add) ==>
                  (name in Local(a) <==> name in add || (name in Local(c) && name !in remove)))
  {
    var d := Review(c, upstream, now, matches);
    var a := Apply(d, Everything(d), now);
    ApplyEverything(c, upstream, now, matches);
    LocalHasNoComma(a);
    NormalizeNormal(Local(d));
    NormalizeNormal(d.settings.detected);
    NormalizeNormal(d.settings.removed);
  }

  /**
   Detect, apply all, detect again against the same upstream list: the second detection stages nothing
   exactly when no added name contains a comma and no ignore rule lost by the round was hiding something.
   */
  lemma OneRoundFixedPoint(c: ChannelState, upstream: seq<string>, now: int, matches: Matcher)
    ensures var d := Review(c, upstream, now, matches);
            var e := Review(Apply(d, Everything(d), now), upstream, now, matches);
            e.settings.detected == [] && e.settings.removed == [] <==>
              CommaFree(d.settings.detected) && !HiddenOnlyByAdded(c, upstream, d.settings.detected, matches)
  {
    var d := Review(c, upstream, now, matches);
    var add := d.settings.detected;
    var e := Review(Apply(d, Everything(d), now), upstream, now, matches);
    var rules := Normalize(c.settings.ignored);
    var kept := Without(rules, Names(add));
    if !CommaFree(add) {
      var name :| name in add && ',' in name;
      HiddenBySubset(rules, kept, name, matches);
      SecondReview(c, upstream, now, matches, name);
    } else {
      if HiddenOnlyByAdded(c, upstream, add, matches) {
        var name :| name in Normalize(upstream) && name !in Local(c) && name !in c.mapping.Values
                    && Hidden(rules, name, matches) && !Hidden(kept, name, matches);
        SecondReview(c, upstream, now, matches, name);
      }
      if e.settings.detected != [] {
        SecondReview(c, upstream, now, matches, e.settings.detected[0]);
      }
      if e.settings.removed != [] {
        SecondReview(c, upstream, now, matches, e.settings.removed[0]);
      }
    }
  }

  /** Without commas and without names that look like regex rules, the round always reaches the fixed point. */
  lemma OrdinaryNamesReachFixedPoint(c: ChannelState, upstream: seq<string>, now: int, matches: Matcher)
    requires forall name :: name in Normalize(upstream) ==> ',' !in name && !IsRegexRule(name)
    ensures var d := Review(c, upstream, now, matches);
            var e := Review(Apply(d, Everything(d), now), upstream, now, matches);
            e.settings.detected == [] && e.settings.removed == []
  {
    OneRoundFixedPoint(c, upstream, now, matches);
  }

  /** A name with a comma is read back as two other names and is proposed again for ever. */
  lemma CommaBreaksFixedPoint(now: int, matches: Matcher)
    ensures var c := ChannelState("", map[], Settings([], [], [], 0, false));
            var d := Review(c, ["a,b"], now, matches);
            Review(Apply(d, Everything(d), now), ["a,b"], now, matches).settings.detected != []
  {
    var c := ChannelState("", map[], Settings([], [], [], 0, false));
    assert Clean("a,b");
    NormalizeNormal(["a,b"]);
    NormalizeNormal([]);
    assert "a,b"[1] == ',';
    FirstReview(c, ["a,b"], now, matches, "a,b");
    hide Review, Apply, Detect, Normalize;
    SecondReview(c, ["a,b"], now, matches, "a,b");
  }

  /** Adding a model named like a regex ignore rule deletes the rule, and what it hid is proposed. */
  lemma AddingARuleNameDropsTheRule(rule: string, name: string, now: int, matches: Matcher)
    requires Clean(rule) && Clean(name) && name != rule && ',' !in rule && IsRegexRule(rule)
    requires RuleHides(rule, name, matches) && !RuleHides(rule, rule, matches)
    ensures var c := ChannelState("", map[], Settings([rule], [], [], 0, false));
            var d := Review(c, [rule, name], now, matches);
            name in Review(Apply(d, Everything(d), now), [rule, name], now, matches).settings.detected
  {
    var c := ChannelState("", map[], Settings([rule], [], [], 0, false));
    var upstream := [rule, name];
    NormalizeNormal(upstream);
    NormalizeNormal([rule]);
    NormalizeNormal([]);
    assert Local(c) == [];
    hide Review, Apply, Normalize, TrimSpace, Local, IsRegexRule;
    assert Hidden([rule], name, matches);
    assert !Hidden([rule], rule, matches);
    FirstReview(c, upstream, now, matches, rule);
    FirstReview(c, upstream, now, matches, name);
    SecondReview(c, upstream, now, matches, name);
    forall added | added in Review(c, upstream, now, matches).settings.detected
      ensures added == rule
    {
      FirstReview(c, upstream, now, matches, added);
    }
  }

  /** The pattern ^x does not match its own rule, so upstream ["regex:^x", "x1"] does not settle in one round. */
  lemma DroppedRuleExample(now: int, matches: Matcher)
    requires matches("^x", "x1") && !matches("^x", "regex:^x")
    ensures var c := ChannelState("", map[], Settings(["regex:^x"], [], [], 0, false));
            var d := Review(c, ["regex:^x", "x1"], now, matches);
            "x1" in Review(Apply(d, Everything(d), now), ["regex:^x", "x1"], now, matches).settings.detected
  {
    assert "regex:^x"[6..] == "^x" && TrimSpace("^x") == "^x";
    assert |"regex:^x"| == 8 && forall i :: 0 <= i < 8 ==> "regex:^x"[i] != ',';
    AddingARuleNameDropsTheRule("regex:^x", "x1", now, matches);
  }

  // ---------------------------------------------------------------- invariants over every run

  datatype Event =
    | Detection(fetched: Option<seq<string>>, now: int, minInterval: int, force: bool, allowAuto: bool)
    | Application(selection: Selection, now: int)

  function After(c: ChannelState, event: Event, matches: Matcher): ChannelState {
    match event
    case Detection(fetched, now, minInterval, force, allowAuto) =>
      Detect(c, fetched, now, minInterval, force, allowAuto, matches)
    case Application(selection, now) => Apply(c, selection, now)
  }

  function AfterAll(c: ChannelState, events: seq<Event>, matches: Matcher): ChannelState {
    if events == [] then c
    else After(AfterAll(c, events[..|events| - 1], matches), events[|events| - 1], matches)
  }

  /** `name` itself is on the ignore list, not only matched by one of its regex rules. */
  predicate LiterallyIgnored(c: ChannelState, name: string) {
    name in Normalize(c.settings.ignored) && !IsRegexRule(name)
  }

  /** The pending lists are consistent with the local models, the ignore list and each other. */
  predicate Consistent(c: ChannelState) {
    && Normal(c.settings.detected) && Normal(c.settings.removed)
    && (forall name :: name in c.settings.detected ==>
          name !in Local(c) && !LiterallyIgnored(c, name) && name !in c.settings.removed)
    && (forall name :: name in c.settings.removed ==> name in Local(c))
  }

  /** Consistent, and no pending addition contains a comma. */
  predicate Good(c: ChannelState) {
    Consistent(c) && CommaFree(c.settings.detected)
  }

  predicate FetchesNoComma(event: Event) {
    event.Detection? && event.fetched.Some? ==> CommaFree(Normalize(event.fetched.value))
  }

  lemma {:induction false} StoredKeepsCommaFree(names: seq<string>, name: string)
    requires name in names && Clean(name) && ',' !in name
    ensures name in Stored(names)
  {
    if names[0] == name {
      SplitWhole(name, ',');
      TrimmedFixed([name]);
    } else {
      StoredKeepsCommaFree(names[1..], name);
    }
  }

  /** Writing a longer list back keeps every old local name. */
  lemma WriteKeeps(c: ChannelState, names: seq<string>, name: string)
    requires Normal(names) && name in names && name in Local(c)
    ensures name in Normalize(GetModels(Join(names, ',')))
  {
    LocalHasNoComma(c);
    StoredKeepsCommaFree(names, name);
    ReadBack(names);
  }

  function Collected(c: ChannelState, fetched: seq<string>, matches: Matcher): (seq<string>, seq<string>) {
    CollectPending(GetModels(c.models), fetched, c.settings.ignored, c.mapping, matches)
  }

  /** What a successful detection changes. */
  lemma DetectShape(c: ChannelState, event: Event, matches: Matcher)
    requires event.Detection? && event.fetched.Some?
    requires !Throttled(c, event.now, event.minInterval, event.force)
    ensures var (add, remove) := Collected(c, event.fetched.value, matches);
            var d := After(c, event, matches);
            && d.settings.ignored == c.settings.ignored && d.settings.removed == remove
            && (d.models == c.models || d.models == Join(Merge(Local(c), add), ','))
            && (d.settings.detected == [] || (d.settings.detected == add && d.models == c.models))
  {
  }

  /** A rule that starts with `regex:` hides what the trimmed rest matches. */
  lemma RegexRuleHides(pattern: string, name: string, matches: Matcher)
    ensures RuleHides("regex:" + pattern, name, matches) <==> matches(TrimSpace(pattern), name)
  {
    hide TrimSpace;
    var rule := "regex:" + pattern;
    assert rule[6..] == pattern;
  }

  /** Any other rule hides only its own name. */
  lemma NameRuleHides(rule: string, name: string, matches: Matcher)
    requires |rule| < 6 || rule[..6] != "regex:"
    ensures RuleHides(rule, name, matches) <==> rule == name
  {
    hide TrimSpace;
  }

  /** A throttled detection changes nothing, a failed fetch only the time of the last check. */
  lemma DetectNothing(c: ChannelState, fetched: Option<seq<string>>, now: int, minInterval: int, force: bool,
                      allowAuto: bool, matches: Matcher)
    ensures var d := Detect(c, fetched, now, minInterval, force, allowAuto, matches);
            var throttled := !force && c.settings.lastCheck > 0 && now - c.settings.lastCheck < minInterval;
            && (throttled ==> d == c)
            && (!throttled && fetched.None? ==> d == c.(settings := c.settings.(lastCheck := now)))
            && (!throttled ==> d.settings.lastCheck == now)
  {
    hide CollectPending, Merge, Join, GetModels;
  }

  /**
   A successful detection: with auto-sync on and allowed the pending additions are written behind the local models and
   no longer pending; in every other case the models stay and the additions are pending.
   */
  lemma DetectMeans(c: ChannelState, upstream: seq<string>, now: int, minInterval: int, force: bool,
                    allowAuto: bool, matches: Matcher)
    requires !Throttled(c, now, minInterval, force)
    ensures var (add, remove) := Collected(c, upstream, matches);
            var d := Detect(c, Some(upstream), now, minInterval, force, allowAuto, matches);
            && d.mapping == c.mapping && d.settings.removed == remove
            && d.settings == c.settings.(lastCheck := now, detected := d.settings.detected, removed := remove)
            && (!(allowAuto && c.settings.autoSync) ==> d.models == c.models && d.settings.detected == add)
            && (allowAuto && c.settings.autoSync ==>
                  && d.settings.detected == []
                  && d.models == (if add == [] then c.models else Join(Local(c) + add, ','))
                  && (CommaFree(add) ==> Local(d) == Local(c) + add)
                  && (CommaFree(add) && add != [] ==> d.models != c.models))
  {
    var (add, remove) := Collected(c, upstream, matches);
    CollectedConsistent(c, upstream, matches);
    MergeAppends(Local(c), add);
    MergeGrows(Local(c), add);
    var d := Detect(c, Some(upstream), now, minInterval, force, allowAuto, matches);
    if allowAuto && c.settings.autoSync && add != [] && CommaFree(add) {
      LocalHasNoComma(c);
      AppendNoDuplicates(Local(c), add);
      ReadBackExactly(Local(c) + add);
    }
    hide CollectPending, Merge, Join, GetModels, Normalize;
  }

  lemma FourNames()
    ensures GetModels("a,b,a,b") == ["a", "b", "a", "b"] && Normalize(["a", "b", "a", "b"]) == ["a", "b"]
    ensures Join(["a", "b", "a,b"], ',') == "a,b,a,b"
  {
    var names := ["a", "b", "a", "b"];
    assert Clean("a") && Clean("b");
    assert SepFree(names, ',');
    JoinFour();
    SplitTrimJoin(names, ',');
    hide Split, TrimChar, Join, TrimSpace;
    TrimmedFixed(names);
    UniqFour();
  }

  lemma JoinFour()
    ensures Join(["a", "b", "a", "b"], ',') == "a,b,a,b"
    ensures Join(["a", "b", "a,b"], ',') == "a,b,a,b"
  {
    assert ["a", "b", "a", "b"][1..] == ["b", "a", "b"] && ["b", "a", "b"][1..] == ["a", "b"];
    assert ["a", "b"][1..] == ["b"];
    assert ["a", "b", "a,b"][1..] == ["b", "a,b"] && ["b", "a,b"][1..] == ["a,b"];
    assert Join(["b"], ',') == "b" && Join(["a", "b"], ',') == "a,b" && Join(["b", "a", "b"], ',') == "b,a,b";
    assert Join(["a,b"], ',') == "a,b" && Join(["b", "a,b"], ',') == "b,a,b";
  }

  lemma UniqFour()
    ensures Uniq(["a", "b", "a", "b"]) == ["a", "b"]
  {
    hide Uniq;
    UniqFixed(["a", "b"]);
    UniqTwice("a", "b");
  }

  lemma UniqTwice(a: string, b: string)
    requires Uniq([a, b]) == [a, b]
    ensures Uniq([a, b, a, b]) == [a, b]
  {
    hide *;
    UniqSnoc([a, b], a);
    assert [a, b] + [a] == [a, b, a];
    UniqSnoc([a, b, a], b);
    assert [a, b, a] + [b] == [a, b, a, b];
  }

  lemma NormalUpstream()
    ensures Normal(["a", "b", "a,b"]) && Normal([])
    ensures Normalize(["a", "b", "a,b"]) == ["a", "b", "a,b"] && Normalize([]) == []
  {
    assert Clean("a") && Clean("b") && Clean("a,b");
    hide Clean;
    NormalizeNormal(["a", "b", "a,b"]);
    NormalizeNormal([]);
  }

  lemma TwoDiffer(names: seq<string>)
    requires NoDuplicates(names)
    ensures |names| > 1 ==> names[0] != names[1] && names[0] in names && names[1] in names
  {
  }

  lemma Singleton(names: seq<string>, name: string)
    requires NoDuplicates(names) && forall x :: x in names <==> x == name
    ensures names == [name]
  {
    TwoDiffer(names);
    assert name in names;
  }

  lemma OnlyTheThird(c: ChannelState, matches: Matcher)
    requires c.models == "a,b,a,b" && c.mapping == map[] && c.settings.ignored == []
    ensures Local(c) == ["a", "b"] && Collected(c, ["a", "b", "a,b"], matches).0 == ["a,b"]
  {
    var upstream := ["a", "b", "a,b"];
    FourNames();
    NormalUpstream();
    hide Normalize, GetModels, Clean, Join;
    PendingIs(GetModels(c.models), upstream, [], map[], matches);
    var add := Collected(c, upstream, matches).0;
    hide CollectPending;
    assert forall name :: !Hidden([], name, matches);
    hide Hidden;
    assert forall name :: name in add <==> name == "a,b";
    Singleton(add, "a,b");
  }

  /** With a comma an auto-sync can report a change and write the field it found. */
  lemma AutoSyncMayWriteTheSame(now: int, matches: Matcher)
    ensures var c := ChannelState("a,b,a,b", map[], Settings([], [], [], 0, true));
            && Collected(c, ["a", "b", "a,b"], matches).0 == ["a,b"]
            && Detect(c, Some(["a", "b", "a,b"]), now, 0, true, true, matches).models == c.models
  {
    hide Detect, Collected, Local, Join, CommaFree;
    var c := ChannelState("a,b,a,b", map[], Settings([], [], [], 0, true));
    var upstream := ["a", "b", "a,b"];
    JoinFour();
    OnlyTheThird(c, matches);
    DetectMeans(c, upstream, now, 0, true, true, matches);
    assert ["a", "b"] + ["a,b"] == upstream;
  }

  lemma MergeAppends(origin: seq<string>, add: seq<string>)
    requires Normal(origin) && Normal(add)
    requires forall x | x in add :: x !in origin
    ensures Merge(origin, add) == origin + add
  {
    NormalizeNormal(origin);
    NormalizeNormal(add);
    OnlyAll(add, Names(add) - Names(origin));
  }

  /** The additions collected are new and not ignored; the removals are other, local models. */
  lemma CollectedConsistent(c: ChannelState, fetched: seq<string>, matches: Matcher)
    ensures var (add, remove) := Collected(c, fetched, matches);
            && Normal(add) && Normal(remove)
            && (forall name | name in add ::
                  name !in Local(c) && !LiterallyIgnored(c, name) && name !in remove && name in Normalize(fetched))
            && (forall name | name in remove :: name in Local(c))
  {
  }

  /** A staged removal is still local after the models of an auto-sync were written. */
  lemma RemovalsStayLocal(c: ChannelState, event: Event, matches: Matcher, name: string)
    requires event.Detection? && event.fetched.Some?
    requires !Throttled(c, event.now, event.minInterval, event.force)
    requires name in After(c, event, matches).settings.removed
    ensures name in Local(After(c, event, matches))
  {
    DetectShape(c, event, matches);
    CollectedConsistent(c, event.fetched.value, matches);
    hide After, Collected, Merge, LiterallyIgnored, Normal;
    var (add, remove) := Collected(c, event.fetched.value, matches);
    NormalizeNormal(Local(c));
    if After(c, event, matches).models != c.models {
      WriteKeeps(c, Merge(Local(c), add), name);
    }
  }

  /** Detections never need the guard: a comma can only do harm when it is applied. */
  lemma DetectConsistent(c: ChannelState, event: Event, matches: Matcher)
    requires Consistent(c) && event.Detection?
    ensures Consistent(After(c, event, matches))
  {
    var d := After(c, event, matches);
    if !Throttled(c, event.now, event.minInterval, event.force) && event.fetched.Some? {
      DetectShape(c, event, matches);
      CollectedConsistent(c, event.fetched.value, matches);
      forall name | name in d.settings.removed
        ensures name in Local(d)
      {
        RemovalsStayLocal(c, event, matches, name);
      }
      hide After, Collected;
      var (add, remove) := Collected(c, event.fetched.value, matches);
      StagedConsistent(c, d, add, remove);
    }
  }

  lemma StagedConsistent(c: ChannelState, d: ChannelState, add: seq<string>, remove: seq<string>)
    requires Normal(add) && Normal(remove)
    requires forall name | name in add :: name !in Local(c) && !LiterallyIgnored(c, name) && name !in remove
    requires d.settings.ignored == c.settings.ignored && d.settings.removed == remove
    requires d.settings.detected == [] || (d.settings.detected == add && d.models == c.models)
    requires forall name | name in remove :: name in Local(d)
    ensures Consistent(d)
  {
  }

  lemma DetectGood(c: ChannelState, event: Event, matches: Matcher)
    requires Good(c) && event.Detection? && FetchesNoComma(event)
    ensures Good(After(c, event, matches))
  {
    DetectConsistent(c, event, matches);
    var d := After(c, event, matches);
    if !Throttled(c, event.now, event.minInterval, event.force) && event.fetched.Some? {
      DetectShape(c, event, matches);
      CollectedConsistent(c, event.fetched.value, matches);
      hide After, Consistent, Collected;
      assert forall name | name in d.settings.detected :: name in Normalize(event.fetched.value);
    }
  }

  /** Every application notes the time. */
  lemma ApplyNotesTime(c: ChannelState, selection: Selection, now: int)
    ensures var a := Apply(c, selection, now);
            a.settings.lastCheck == now && a.mapping == c.mapping && a.settings.autoSync == c.settings.autoSync
  {
    hide ChosenAdds, ChosenIgnores, ChosenRemoves, NextModels, Join, Local, Merge, Subtract, Normalize;
  }

  /** The local names after an application, name by name. */
  lemma ApplyLocal(c: ChannelState, selection: Selection, now: int, name: string)
    requires Good(c)
    ensures name in Local(Apply(c, selection, now)) <==>
              name in ChosenAdds(c, selection) || (name in Local(c) && name !in ChosenRemoves(c, selection))
  {
    NormalizeNormal(Local(c));
    NormalizeNormal(c.settings.detected);
    NormalizeNormal(ChosenAdds(c, selection));
    NormalizeNormal(ChosenRemoves(c, selection));
    LocalHasNoComma(c);
    ReadBackExactly(NextModels(c, selection));
  }

  /** The other fields after an application, name by name. */
  lemma ApplySettings(c: ChannelState, selection: Selection, now: int, name: string)
    requires Normal(c.settings.detected) && Normal(c.settings.removed)
    ensures var a := Apply(c, selection, now);
            var add, ignore := ChosenAdds(c, selection), ChosenIgnores(c, selection);
            && Normal(a.settings.detected) && Normal(a.settings.removed)
            && (name in a.settings.detected <==>
                  name in c.settings.detected && name !in add && name !in ignore)
            && (name in a.settings.removed <==>
                  name in c.settings.removed && name !in ChosenRemoves(c, selection))
            && (name in Normalize(a.settings.ignored) <==>
                  name !in add && (name in Normalize(c.settings.ignored) || name in ignore))
            && (name in add <==> name in Normalize(selection.add) && name in c.settings.detected)
            && (name in ignore <==> name in Normalize(selection.ignore) && name in c.settings.detected)
  {
    var add, ignore, remove :=
      ChosenAdds(c, selection), ChosenIgnores(c, selection), ChosenRemoves(c, selection);
    NormalizeNormal(c.settings.detected);
    NormalizeNormal(c.settings.removed);
    NormalizeConcat(add, ignore);
    NormalizeNormal(add);
    NormalizeNormal(ignore);
    NormalizeNormal(remove);
    var widened := Merge(c.settings.ignored, ignore);
    NormalizeNormal(widened);
    NormalizeNormal(Subtract(widened, add));
  }

  /** What an application chooses: only names that wait for a decision, and adding wins over removing. */
  lemma ChosenAre(c: ChannelState, selection: Selection, name: string)
    requires Normal(c.settings.detected) && Normal(c.settings.removed)
    ensures var add, drop := Normalize(selection.add), Normalize(selection.remove);
            && (name in ChosenAdds(c, selection) <==> name in add && name in c.settings.detected)
            && (name in ChosenIgnores(c, selection) <==>
                  name in Normalize(selection.ignore) && name in c.settings.detected)
            && (name in ChosenRemoves(c, selection) <==>
                  && name in drop && name in c.settings.removed
                  && !(name in add && name in c.settings.detected))
  {
    NormalizeNormal(c.settings.detected);
    NormalizeNormal(c.settings.removed);
    NormalizeNormal(ChosenAdds(c, selection));
    NormalizeNormal(Intersect(selection.remove, Normalize(c.settings.removed)));
    hide Normalize, Normal;
  }

  /**
   A partial selection, name by name: selected additions become local and are no longer ignored, selected ignores
   become ignored, selected removals are no longer local, and exactly the names that were not selected stay pending.
   */
  lemma ApplyMeans(c: ChannelState, selection: Selection, now: int, name: string)
    requires Good(c)
    ensures var a := Apply(c, selection, now);
            var adds := name in Normalize(selection.add) && name in c.settings.detected;
            var ignores := name in Normalize(selection.ignore) && name in c.settings.detected;
            var removes := name in Normalize(selection.remove) && name in c.settings.removed;
            && (name in Local(a) <==> adds || (name in Local(c) && !removes))
            && (name in Normalize(a.settings.ignored) <==> !adds && (name in Normalize(c.settings.ignored) || ignores))
            && (name in a.settings.detected <==> name in c.settings.detected && !adds && !ignores)
            && (name in a.settings.removed <==> name in c.settings.removed && !removes)
  {
    ChosenAre(c, selection, name);
    ApplyLocal(c, selection, now, name);
    ApplySettings(c, selection, now, name);
    hide Apply, ChosenAdds, ChosenIgnores, ChosenRemoves, Normalize, Local;
  }

  lemma ApplyGood(c: ChannelState, selection: Selection, now: int)
    requires Good(c)
    ensures Good(Apply(c, selection, now))
  {
    var a := Apply(c, selection, now);
    ApplySettings(c, selection, now, "");
    forall name | name in a.settings.detected
      ensures name !in Local(a) && !LiterallyIgnored(a, name) && name !in a.settings.removed && ',' !in name
    {
      ApplyLocal(c, selection, now, name);
      ApplySettings(c, selection, now, name);
    }
    forall name | name in a.settings.removed
      ensures name in Local(a)
    {
      ApplyLocal(c, selection, now, name);
      ApplySettings(c, selection, now, name);
    }
  }

  /** Splitting an added name at its commas gives a name that is still waiting for a decision. */
  predicate PieceStillPending(c: ChannelState, selection: Selection, name: string, piece: string) {
    && name in ChosenAdds(c, selection) && piece in Trimmed(Split(name, ','))
    && piece in c.settings.detected && piece !in ChosenAdds(c, selection) && piece !in ChosenIgnores(c, selection)
  }

  lemma {:induction false} StoredMember(names: seq<string>, piece: string)
    ensures piece in Stored(names) <==> exists name :: name in names && piece in Trimmed(Split(name, ','))
  {
    if names != [] {
      StoredMember(names[1..], piece);
      assert names[0] in names;
      assert forall name :: name in names <==> name == names[0] || name in names[1..];
    }
  }

  lemma AddsAreNew(c: ChannelState, selection: Selection)
    requires Consistent(c)
    ensures forall name | name in ChosenAdds(c, selection) :: name in NextModels(c, selection) && name !in Local(c)
  {
    hide Local;
    NormalizeNormal(c.settings.detected);
    NormalizeNormal(ChosenAdds(c, selection));
  }

  lemma ApplyLocalPieces(c: ChannelState, selection: Selection, now: int, piece: string)
    requires Consistent(c) && piece in Apply(c, selection, now).settings.detected
    ensures piece in Local(Apply(c, selection, now)) <==>
              exists name :: PieceStillPending(c, selection, name, piece)
  {
    var next := NextModels(c, selection);
    ApplySettings(c, selection, now, piece);
    NormalizeNormal(Local(c));
    NormalizeNormal(ChosenAdds(c, selection));
    LocalHasNoComma(c);
    ReadBack(next);
    StoredMember(next, piece);
    AddsAreNew(c, selection);
    if next != Local(c) && piece in Stored(next) {
      var name :| name in next && piece in Trimmed(Split(name, ','));
      if name in Local(c) {
        SplitWhole(name, ',');
        TrimmedFixed([name]);
      }
      assert PieceStillPending(c, selection, name, piece);
    }
  }

  /** Apart from that, an application keeps everything, commas or not. */
  lemma ApplyConsistentName(c: ChannelState, selection: Selection, now: int, name: string)
    requires Consistent(c)
    ensures var a := Apply(c, selection, now);
            && (name in a.settings.detected ==> !LiterallyIgnored(a, name) && name !in a.settings.removed)
            && (name in a.settings.removed ==> name in Local(a))
  {
    var a := Apply(c, selection, now);
    ApplySettings(c, selection, now, name);
    if name in a.settings.removed && a.models != c.models {
      LocalHasNoComma(c);
      NormalizeNormal(Local(c));
      NormalizeNormal(ChosenRemoves(c, selection));
      NormalizeNormal(ChosenAdds(c, selection));
      WriteKeeps(c, NextModels(c, selection), name);
    }
  }

  /** So only the overlap of pending additions and local models is at stake. */
  lemma ApplyConsistentIf(c: ChannelState, selection: Selection, now: int)
    requires Consistent(c)
    requires var a := Apply(c, selection, now); forall name :: name in a.settings.detected ==> name !in Local(a)
    ensures Consistent(Apply(c, selection, now))
  {
    var a := Apply(c, selection, now);
    ApplySettings(c, selection, now, "");
    forall name | name in a.settings.detected
      ensures !LiterallyIgnored(a, name) && name !in a.settings.removed
    {
      ApplyConsistentName(c, selection, now, name);
    }
    forall name | name in a.settings.removed
      ensures name in Local(a)
    {
      ApplyConsistentName(c, selection, now, name);
    }
  }

  lemma PieceBreaks(c: ChannelState, selection: Selection, now: int, name: string, piece: string)
    requires Consistent(c) && PieceStillPending(c, selection, name, piece)
    ensures var a := Apply(c, selection, now); piece in a.settings.detected && piece in Local(a)
  {
    ApplySettings(c, selection, now, piece);
    ApplyLocalPieces(c, selection, now, piece);
  }

  /** An application keeps the pending lists consistent exactly when it leaves no piece of a name pending. */
  lemma ApplyConsistentExactly(c: ChannelState, selection: Selection, now: int)
    requires Consistent(c)
    ensures Consistent(Apply(c, selection, now)) <==>
              forall name, piece :: !PieceStillPending(c, selection, name, piece)
  {
    if name, piece :| PieceStillPending(c, selection, name, piece) {
      PieceBreaks(c, selection, now, name, piece);
    } else {
      forall piece | piece in Apply(c, selection, now).settings.detected
        ensures piece !in Local(Apply(c, selection, now))
      {
        ApplyLocalPieces(c, selection, now, piece);
      }
      ApplyConsistentIf(c, selection, now);
    }
  }

  /** The event is an application that leaves a piece of an added name pending. */
  ghost predicate LeavesPiece(c: ChannelState, event: Event) {
    event.Application? && exists name, piece :: PieceStillPending(c, event.selection, name, piece)
  }

  lemma EventConsistentIff(c: ChannelState, event: Event, matches: Matcher)
    requires Consistent(c)
    ensures Consistent(After(c, event, matches)) <==> !LeavesPiece(c, event)
  {
    hide Consistent, Apply, Detect, PieceStillPending;
    match event {
      case Detection(_, _, _, _, _) => DetectConsistent(c, event, matches);
      case Application(selection, now) => ApplyConsistentExactly(c, selection, now);
    }
  }

  /** Commas or not: every state of a run is consistent exactly when no application of it leaves a piece pending. */
  lemma {:induction false} RunConsistentIff(c: ChannelState, events: seq<Event>, matches: Matcher)
    requires Consistent(c)
    ensures (forall n | 0 <= n <= |events| :: Consistent(AfterAll(c, events[..n], matches))) <==>
              forall n | 0 <= n < |events| :: !LeavesPiece(AfterAll(c, events[..n], matches), events[n])
  {
    hide Consistent, LeavesPiece, After;
    if forall n | 0 <= n < |events| :: !LeavesPiece(AfterAll(c, events[..n], matches), events[n]) {
      for n := 0 to |events|
        invariant forall m | 0 <= m <= n :: Consistent(AfterAll(c, events[..m], matches))
      {
        assert events[..n + 1][..n] == events[..n];
        EventConsistentIff(AfterAll(c, events[..n], matches), events[n], matches);
      }
    }
    if forall n | 0 <= n <= |events| :: Consistent(AfterAll(c, events[..n], matches)) {
      forall n | 0 <= n < |events|
        ensures !LeavesPiece(AfterAll(c, events[..n], matches), events[n])
      {
        assert events[..n + 1][..n] == events[..n];
        EventConsistentIff(AfterAll(c, events[..n], matches), events[n], matches);
      }
    }
  }

  lemma PieceOfName()
    ensures "a" in Trimmed(Split("a,b", ','))
  {
    hide Trimmed, Split;
    assert "a,b" == "a" + [','] + "b";
    SplitConcat("a", "b", ',');
    SplitWhole("a", ',');
    TrimmedConcat(["a"], Split("b", ','));
    TrimmedFixed(["a"]);
  }

  lemma NormalSample()
    ensures Normal(["a,b", "a"]) && Normal(["a,b"]) && Normal([])
  {
    assert Clean("a,b") && Clean("a");
  }

  /** Adding "a,b" while "a" is pending leaves "a" both local and pending. */
  lemma PieceExample(now: int)
    ensures var c := ChannelState("", map[], Settings([], ["a,b", "a"], [], 0, false));
            Consistent(c) && !Consistent(Apply(c, Selection(["a,b"], [], []), now))
  {
    var c := ChannelState("", map[], Settings([], ["a,b", "a"], [], 0, false));
    var selection := Selection(["a,b"], [], []);
    NormalSample();
    hide Normal, Clean, Split, Trimmed, Apply, TrimSpace, Uniq, TrimChar;
    NormalizeNormal(["a,b", "a"]);
    NormalizeNormal(["a,b"]);
    NormalizeNormal([]);
    hide Normalize;
    assert Local(c) == [];
    assert Consistent(c);
    PieceOfName();
    assert "a" != "a,b";
    assert PieceStillPending(c, selection, "a,b", "a");
    hide PieceStillPending, Consistent;
    PieceBreaks(c, selection, now, "a,b", "a");
    NotConsistent(Apply(c, selection, now), "a");
  }

  lemma NotConsistent(c: ChannelState, name: string)
    requires name in c.settings.detected && name in Local(c)
    ensures !Consistent(c)
  {
  }

  /**
   Over every run of detections (forced, throttled, failed or auto-syncing) and partial applications, the
   pending additions avoid the local models, the literally ignored models and the pending removals, and
   the pending removals are local models, provided no fetched or pending name contains a comma.
   */
  lemma {:induction false} RunsStayConsistent(c: ChannelState, events: seq<Event>, matches: Matcher)
    requires Good(c) && forall event :: event in events ==> FetchesNoComma(event)
    ensures Good(AfterAll(c, events, matches))
  {
    if events != [] {
      var front, last := events[..|events| - 1], events[|events| - 1];
      assert last in events;
      RunsStayConsistent(c, front, matches);
      var before := AfterAll(c, front, matches);
      match last {
        case Detection(_, _, _, _, _) => DetectGood(before, last, matches);
        case Application(selection, now) => ApplyGood(before, selection, now);
      }
    }
  }

  /** An application keeps every ignored model that is not pending, in any state. */
  lemma ApplyKeepsIgnored(c: ChannelState, selection: Selection, now: int, name: string)
    requires LiterallyIgnored(c, name) && name !in Normalize(c.settings.detected)
    ensures var a := Apply(c, selection, now); LiterallyIgnored(a, name) && name !in Normalize(a.settings.detected)
  {
    var add, ignore := ChosenAdds(c, selection), ChosenIgnores(c, selection);
    NormalizeNormal(add);
    var widened := Merge(c.settings.ignored, ignore);
    NormalizeNormal(widened);
    NormalizeNormal(Subtract(widened, add));
    NormalizeNormal(Normalize(c.settings.detected));
    NormalizeNormal(Subtract(Normalize(c.settings.detected), add + ignore));
    assert name !in add;
  }

  lemma DetectKeepsIgnored(c: ChannelState, event: Event, matches: Matcher, name: string)
    requires event.Detection? && LiterallyIgnored(c, name) && name !in Normalize(c.settings.detected)
    ensures var d := After(c, event, matches); LiterallyIgnored(d, name) && name !in Normalize(d.settings.detected)
  {
    if !Throttled(c, event.now, event.minInterval, event.force) && event.fetched.Some? {
      DetectShape(c, event, matches);
      CollectedConsistent(c, event.fetched.value, matches);
      var d := After(c, event, matches);
      hide After, Collected;
      NormalizeNormal(d.settings.detected);
    }
  }

  /**
   A model on the ignore list that is not pending stays there and is never proposed again, whatever happens and in
   whatever state the lists are.
   */
  lemma {:induction false} IgnoredForEver(c: ChannelState, events: seq<Event>, matches: Matcher, name: string)
    requires LiterallyIgnored(c, name) && name !in Normalize(c.settings.detected)
    ensures LiterallyIgnored(AfterAll(c, events, matches), name)
    ensures name !in Normalize(AfterAll(c, events, matches).settings.detected)
  {
    if events != [] {
      hide LiterallyIgnored, Apply, Detect, Normalize;
      var front, last := events[..|events| - 1], events[|events| - 1];
      IgnoredForEver(c, front, matches, name);
      var before := AfterAll(c, front, matches);
      match last {
        case Detection(_, _, _, _, _) => DetectKeepsIgnored(before, last, matches, name);
        case Application(selection, now) => ApplyKeepsIgnored(before, selection, now, name);
      }
    }
  }

  // ---------------------------------------------------------------- composing selections

  function Both(first: Selection, second: Selection): Selection {
    Selection(first.add + second.add, first.ignore + second.ignore, first.remove + second.remove)
  }

  /** Some pending model is ignored by the first selection and added only by the second. */
  predicate IgnoredThenAdded(c: ChannelState, first: Selection, second: Selection) {
    exists name :: name in ChosenIgnores(c, first) && name !in ChosenAdds(c, first)
                   && name in Normalize(second.add)
  }

  /** An application keeps the unselected local models in order and appends the chosen additions. */
  lemma NextModelsShape(c: ChannelState, selection: Selection)
    requires Consistent(c)
    ensures NextModels(c, selection) ==
            Without(Local(c), Names(ChosenRemoves(c, selection))) + ChosenAdds(c, selection)
  {
    var local, add, remove := Local(c), ChosenAdds(c, selection), ChosenRemoves(c, selection);
    NormalizeNormal(local);
    NormalizeNormal(add);
    NormalizeNormal(remove);
    NormalizeNormal(c.settings.detected);
    OnlyAll(add, Names(add) - Names(local));
    OnlyAll(remove, Names(remove) - Names(add));
    var merged := local + add;
    assert Merge(local, add) == merged;
    NormalizeNormal(merged);
    var keep := Names(merged) - Names(remove);
    OnlyConcat(local, add, keep);
    OnlyAll(add, keep);
    OnlySame(local, keep, Names(local) - Names(remove));
  }

  /** An application that adds no name with a comma keeps the lists consistent. */
  lemma ApplyPlain(c: ChannelState, selection: Selection, now: int)
    requires Consistent(c) && CommaFree(ChosenAdds(c, selection))
    ensures Consistent(Apply(c, selection, now))
  {
    ApplyConsistentExactly(c, selection, now);
    forall name, piece | name in ChosenAdds(c, selection) && piece in Trimmed(Split(name, ','))
      ensures piece == name
    {
      SplitWhole(name, ',');
      TrimmedFixed([name]);
    }
  }

  lemma LocalAfterApply(c: ChannelState, selection: Selection, now: int)
    requires Consistent(c) && CommaFree(ChosenAdds(c, selection))
    ensures Local(Apply(c, selection, now)) == NextModels(c, selection)
  {
    NormalizeNormal(Local(c));
    NormalizeNormal(c.settings.detected);
    NormalizeNormal(ChosenAdds(c, selection));
    NormalizeNormal(ChosenRemoves(c, selection));
    LocalHasNoComma(c);
    ReadBackExactly(NextModels(c, selection));
  }

  /** The additions of both selections together are those of the first followed by those of the second. */
  lemma AddsCompose(c: ChannelState, first: Selection, second: Selection, now: int)
    requires Consistent(c) && CommaFree(ChosenAdds(c, first)) && !IgnoredThenAdded(c, first, second)
    ensures ChosenAdds(c, Both(first, second)) ==
            ChosenAdds(c, first) + ChosenAdds(Apply(c, first, now), second)
  {
    var pending := Names(c.settings.detected);
    var c1 := Apply(c, first, now);
    var a1, a2 := Normalize(first.add), Normalize(second.add);
    var later := Without(a2, Names(a1));
    ApplySettings(c, first, now, "");
    NormalizeNormal(c.settings.detected);
    NormalizeNormal(c1.settings.detected);
    NormalizeConcat(first.add, second.add);
    OnlyConcat(a1, later, pending);
    OnlyOnly(a2, Names(a2) - Names(a1), pending);
    forall name | name in a2
      ensures name in (Names(a2) - Names(a1)) * pending <==> name in Names(c1.settings.detected)
    {
      ApplySettings(c, first, now, name);
    }
    OnlySame(a2, (Names(a2) - Names(a1)) * pending, Names(c1.settings.detected));
  }

  /** The removals of both selections together, name by name. */
  lemma RemovesCompose(c: ChannelState, first: Selection, second: Selection, now: int, name: string)
    requires Consistent(c) && CommaFree(ChosenAdds(c, first))
    ensures name in ChosenRemoves(c, Both(first, second)) <==>
              name in ChosenRemoves(c, first) || name in ChosenRemoves(Apply(c, first, now), second)
    ensures name in ChosenRemoves(Apply(c, first, now), second) ==> name !in c.settings.detected
  {
    var c1 := Apply(c, first, now);
    ApplyPlain(c, first, now);
    ApplySettings(c, first, now, name);
    NormalizeNormal(c.settings.detected);
    NormalizeNormal(c.settings.removed);
    NormalizeNormal(c1.settings.detected);
    NormalizeNormal(c1.settings.removed);
    NormalizeConcat(first.remove, second.remove);
    NormalizeNormal(Intersect(first.remove, c.settings.removed));
    NormalizeNormal(Intersect(second.remove, c1.settings.removed));
    NormalizeNormal(Intersect(first.remove + second.remove, c.settings.removed));
    NormalizeNormal(ChosenAdds(c, first));
    NormalizeNormal(ChosenAdds(c1, second));
    NormalizeNormal(ChosenAdds(c, Both(first, second)));
  }

  /** Removing in two steps, with additions appended in between, keeps the same local models in order. */
  lemma RemovalsInOrder(c: ChannelState, first: Selection, second: Selection, now: int)
    requires Consistent(c) && CommaFree(ChosenAdds(c, first))
    ensures var r1, r2 := ChosenRemoves(c, first), ChosenRemoves(Apply(c, first, now), second);
            Without(Without(Local(c), Names(r1)) + ChosenAdds(c, first), Names(r2)) ==
            Without(Local(c), Names(ChosenRemoves(c, Both(first, second)))) + ChosenAdds(c, first)
  {
    var local, add := Local(c), ChosenAdds(c, first);
    var r1, r2 := Names(ChosenRemoves(c, first)), Names(ChosenRemoves(Apply(c, first, now), second));
    var r := Names(ChosenRemoves(c, Both(first, second)));
    forall name
      ensures name in r <==> name in r1 || name in r2
      ensures name in add ==> name !in r2
    {
      RemovesCompose(c, first, second, now, name);
      ApplySettings(c, first, now, name);
    }
    var kept := Without(local, r1);
    var keep := Names(kept + add) - r2;
    OnlyConcat(kept, add, keep);
    OnlyAll(add, keep);
    OnlyOnly(local, Names(local) - r1, keep);
    OnlySame(local, (Names(local) - r1) * keep, Names(local) - r);
  }

  /** The models after both steps: the survivors of both removals, then the additions in order. */
  lemma SecondStepModels(c: ChannelState, first: Selection, second: Selection, now: int)
    requires Consistent(c) && CommaFree(ChosenAdds(c, first))
    ensures NextModels(Apply(c, first, now), second) ==
            Without(Local(c), Names(ChosenRemoves(c, Both(first, second)))) + ChosenAdds(c, first)
            + ChosenAdds(Apply(c, first, now), second)
  {
    LocalAfterApply(c, first, now);
    NextModelsShape(c, first);
    ApplyPlain(c, first, now);
    NextModelsShape(Apply(c, first, now), second);
    RemovalsInOrder(c, first, second, now);
  }

  lemma ComposedModels(c: ChannelState, first: Selection, second: Selection, now: int)
    requires Consistent(c) && CommaFree(ChosenAdds(c, first)) && !IgnoredThenAdded(c, first, second)
    ensures NextModels(Apply(c, first, now), second) == NextModels(c, Both(first, second))
  {
    SecondStepModels(c, first, second, now);
    NextModelsShape(c, Both(first, second));
    AddsCompose(c, first, second, now);
    ConcatAssociative(Without(Local(c), Names(ChosenRemoves(c, Both(first, second)))),
                      ChosenAdds(c, first), ChosenAdds(Apply(c, first, now), second));
  }

  lemma ConcatAssociative(x: seq<string>, y: seq<string>, z: seq<string>)
    ensures x + y + z == x + (y + z)
  {
  }

  /** What the second selection adds after the first, both together add. */
  lemma SecondAddsAreBoth(c: ChannelState, first: Selection, second: Selection, now: int)
    requires Consistent(c)
    ensures forall name | name in ChosenAdds(c, first) || name in ChosenAdds(Apply(c, first, now), second) ::
              name in ChosenAdds(c, Both(first, second))
  {
    var c1 := Apply(c, first, now);
    ApplySettings(c, first, now, "");
    NormalizeNormal(c.settings.detected);
    NormalizeNormal(c1.settings.detected);
    NormalizeConcat(first.add, second.add);
    forall name | name in ChosenAdds(c1, second)
      ensures name in ChosenAdds(c, Both(first, second))
    {
      ApplySettings(c, first, now, name);
    }
  }

  /** A model the first selection ignored is no longer pending for the second, but is for both together. */
  lemma IgnoredThenAddedDiffers(c: ChannelState, first: Selection, second: Selection, now: int, name: string)
    requires Consistent(c) && CommaFree(ChosenAdds(c, Both(first, second)))
    requires name in ChosenIgnores(c, first) && name !in ChosenAdds(c, first) && name in Normalize(second.add)
    ensures name in Local(Apply(c, Both(first, second), now))
    ensures name !in Local(Apply(Apply(c, first, now), second, now))
  {
    var c1 := Apply(c, first, now);
    SecondAddsAreBoth(c, first, second, now);
    NormalizeNormal(c.settings.detected);
    NormalizeConcat(first.add, second.add);
    AddWins(c, Both(first, second), now, name);
    ApplyPlain(c, first, now);
    ApplySettings(c, first, now, name);
    LocalAfterApply(c, first, now);
    LocalAfterApply(c1, second, now);
    NextModelsShape(c, first);
    NextModelsShape(c1, second);
    NormalizeNormal(c1.settings.detected);
  }

  /**
   Applying two selections one after the other gives the same model sequence as applying them together,
   exactly when no pending model is ignored by the first and added by the second.
   */
  lemma SelectionsCompose(c: ChannelState, first: Selection, second: Selection, now: int)
    requires Consistent(c) && CommaFree(ChosenAdds(c, Both(first, second)))
    ensures Local(Apply(Apply(c, first, now), second, now)) == Local(Apply(c, Both(first, second), now))
            <==> !IgnoredThenAdded(c, first, second)
  {
    SecondAddsAreBoth(c, first, second, now);
    if IgnoredThenAdded(c, first, second) {
      var name :| name in ChosenIgnores(c, first) && name !in ChosenAdds(c, first) && name in Normalize(second.add);
      IgnoredThenAddedDiffers(c, first, second, now, name);
    } else {
      ApplyPlain(c, first, now);
      ComposedModels(c, first, second, now);
      LocalAfterApply(Apply(c, first, now), second, now);
      LocalAfterApply(c, Both(first, second), now);
    }
  }

  /**
   With commas the two can differ: the first selection adds a name and the second removes a local model that is a
   piece of it.  One after the other the model is gone, together the piece brings it back.
   */
  lemma CommaSelectionsDiffer(c: ChannelState, first: Selection, second: Selection, now: int,
                              name: string, piece: string)
    requires Consistent(c) && name in ChosenAdds(c, first) && piece in Trimmed(Split(name, ','))
    requires second.add == [] && piece in Normalize(second.remove) && piece !in Normalize(first.remove)
    requires piece in c.settings.removed
    ensures piece in Local(Apply(c, Both(first, second), now))
    ensures piece !in Local(Apply(Apply(c, first, now), second, now))
  {
    SecondAddsAreBoth(c, first, second, now);
    PieceBecomesLocal(c, Both(first, second), now, name, piece);
    var c1 := Apply(c, first, now);
    ApplySettings(c, first, now, piece);
    NormalizeNormal(c.settings.removed);
    NormalizeNormal(c1.settings.removed);
    NormalizeNormal(Intersect(first.remove, c.settings.removed));
    NormalizeNormal(Intersect(second.remove, c1.settings.removed));
    RemovedIsGone(c1, second, now, piece);
  }

  lemma OneModel()
    ensures Normal(["a"]) && GetModels("a") == ["a"]
  {
    assert Clean("a");
    assert TrimChar("a", ',') == "a";
    SplitWhole("a", ',');
  }

  /** The local model "a" is pending for removal and "a,b" for adding. */
  lemma CommaSelectionsExample(now: int)
    ensures var c := ChannelState("a", map[], Settings([], ["a,b"], ["a"], 0, false));
            var first, second := Selection(["a,b"], [], []), Selection([], [], ["a"]);
            && "a" in Local(Apply(c, Both(first, second), now))
            && "a" !in Local(Apply(Apply(c, first, now), second, now))
  {
    var c := ChannelState("a", map[], Settings([], ["a,b"], ["a"], 0, false));
    var first, second := Selection(["a,b"], [], []), Selection([], [], ["a"]);
    NormalSample();
    OneModel();
    hide Normal, Clean, Split, Trimmed, Apply, TrimSpace, Uniq, TrimChar, GetModels;
    NormalizeNormal(["a,b"]);
    NormalizeNormal(["a"]);
    NormalizeNormal([]);
    hide Normalize;
    PieceOfName();
    assert "a" != "a,b";
    assert Local(c) == ["a"];
    assert Consistent(c);
    assert "a,b" in ChosenAdds(c, first);
    hide Local, Consistent, ChosenAdds, Both;
    CommaSelectionsDiffer(c, first, second, now, "a,b", "a");
  }

  lemma PieceBecomesLocal(c: ChannelState, selection: Selection, now: int, name: string, piece: string)
    requires Consistent(c) && name in ChosenAdds(c, selection) && piece in Trimmed(Split(name, ','))
    ensures piece in Local(Apply(c, selection, now))
  {
    var next := NextModels(c, selection);
    AddsAreNew(c, selection);
    ReadBack(next);
    StoredMember(next, piece);
  }

  /** A chosen removal is no longer local when nothing is added. */
  lemma RemovedIsGone(c: ChannelState, selection: Selection, now: int, name: string)
    requires selection.add == [] && name in ChosenRemoves(c, selection)
    ensures name !in Local(Apply(c, selection, now))
  {
    var next := NextModels(c, selection);
    NormalizeNormal(Local(c));
    NormalizeNormal(ChosenAdds(c, selection));
    NormalizeNormal(ChosenRemoves(c, selection));
    NormalizeNormal([]);
    LocalHasNoComma(c);
    ReadBackExactly(next);
  }

  /**
   In one selection, adding wins over ignoring and over removing, in any state: an added model is off the ignore list,
   and it is local afterwards exactly when it contains no comma.
   */
  lemma AddWins(c: ChannelState, selection: Selection, now: int, name: string)
    requires name in ChosenAdds(c, selection)
    ensures name in Local(Apply(c, selection, now)) <==> ',' !in name
    ensures name !in Normalize(Apply(c, selection, now).settings.ignored)
  {
    var add := ChosenAdds(c, selection);
    NormalizeNormal(add);
    var next := NextModels(c, selection);
    assert name in next;
    LocalHasNoComma(c);
    LocalHasNoComma(Apply(c, selection, now));
    ReadBack(next);
    if ',' !in name {
      StoredKeepsCommaFree(next, name);
    }
    var widened := Merge(c.settings.ignored, ChosenIgnores(c, selection));
    NormalizeNormal(widened);
    NormalizeNormal(Subtract(widened, add));
  }

  lemma MergeGrows(origin: seq<string>, add: seq<string>)
    requires Normal(origin) && Normal(add)
    requires forall x | x in add :: x !in origin
    ensures |Merge(origin, add)| == |origin| + |add|
  {
    NormalizeNormal(origin);
    NormalizeNormal(add);
    OnlyAll(add, Names(add) - Names(origin));
  }

  // ---------------------------------------------------------------- the channel object

  /** The channel record whose fields the two operations update in place. */
  class Channel {
    var models: string
    var mapping: map<string, string>
    var settings: Settings

    function State(): ChannelState
      reads this
    {
      ChannelState(models, mapping, settings)
    }

    /** checkAndPersistChannelUpstreamModelUpdates; the error result stands for a failed fetch. */
    method CheckAndPersist(fetched: Option<seq<string>>, now: int, minInterval: int, force: bool,
                           allowAuto: bool, matches: Matcher)
      returns (modelsChanged: bool, autoAdded: int, failed: bool)
      modifies this
      ensures State() == Detect(old(State()), fetched, now, minInterval, force, allowAuto, matches)
      ensures failed <==> fetched.None? && !Throttled(old(State()), now, minInterval, force)
      ensures modelsChanged <==>
                && fetched.Some? && !Throttled(old(State()), now, minInterval, force)
                && allowAuto && old(settings).autoSync
                && Collected(old(State()), fetched.value, matches).0 != []
      ensures modelsChanged ==>
                models == Join(Local(old(State())) + Collected(old(State()), fetched.value, matches).0, ',')
      ensures modelsChanged && CommaFree(Collected(old(State()), fetched.value, matches).0) ==> models != old(models)
      ensures modelsChanged ==> autoAdded == |CollectPending(GetModels(old(models)), fetched.value,
                                              old(settings).ignored, old(mapping), matches).0| > 0
      ensures !modelsChanged ==> models == old(models) && autoAdded == 0
    {
      hide CollectPending, GetModels, Merge, Normalize;
      modelsChanged, autoAdded, failed := false, 0, false;
      if !force && settings.lastCheck > 0 && now - settings.lastCheck < minInterval {
        return;
      }
      settings := settings.(lastCheck := now);
      if fetched.None? {
        failed := true;
        return;
      }
      var (add, remove) := CollectPending(GetModels(models), fetched.value, settings.ignored, mapping, matches);
      if allowAuto && settings.autoSync && |add| > 0 {
        var origin := Normalize(GetModels(models));
        var merged := MergeModelNames(origin, add);
        MergeGrows(origin, add);
        DetectMeans(old(State()), fetched.value, now, minInterval, force, allowAuto, matches);
        if |merged| > |origin| {
          models := Join(merged, ',');
          autoAdded := |merged| - |origin|;
          modelsChanged := true;
        }
        settings := settings.(detected := []);
      } else {
        settings := settings.(detected := add);
      }
      settings := settings.(removed := remove);
    }

    /** applyChannelUpstreamModelUpdates */
    method ApplyUpdates(addInput: seq<string>, ignoreInput: seq<string>, removeInput: seq<string>, now: int)
      returns (added: seq<string>, removed: seq<string>, modelsChanged: bool)
      modifies this
      ensures State() == Apply(old(State()), Selection(addInput, ignoreInput, removeInput), now)
      ensures added == ChosenAdds(old(State()), Selection(addInput, ignoreInput, removeInput))
      ensures removed == ChosenRemoves(old(State()), Selection(addInput, ignoreInput, removeInput))
      ensures var before, selection := old(State()), Selection(addInput, ignoreInput, removeInput);
              modelsChanged <==> NextModels(before, selection) != Local(before)
      ensures !modelsChanged ==> models == old(models)
    {
      hide Normalize, Intersect, Subtract, Merge, ApplySelected, GetModels, Join;
      var pendingAdd := Normalize(settings.detected);
      var pendingRemove := Normalize(settings.removed);
      added := Intersect(addInput, pendingAdd);
      var ignore := Intersect(ignoreInput, pendingAdd);
      removed := Subtract(Intersect(removeInput, pendingRemove), added);
      var origin := Normalize(GetModels(models));
      var next := ApplySelected(origin, added, removed);
      modelsChanged := origin != next;
      if modelsChanged {
        models := Join(next, ',');
      }
      var ignored := MergeModelNames(settings.ignored, ignore);
      if |added| > 0 {
        ignored := Subtract(ignored, added);
      }
      settings := settings.(ignored := ignored,
                            detected := Subtract(pendingAdd, added + ignore),
                            removed := Subtract(pendingRemove, removed),
                            lastCheck := now);
    }
  }

  // ---------------------------------------------------------------- scanning the enabled channels in batches

  const BATCH_SIZE := 100

  /** findEnabledChannelsAfterID: the next ids above `lastID`, at most one batch of them. */
  function FindAfter(ids: seq<int>, lastID: int): (batch: seq<int>)
    ensures |batch| <= BATCH_SIZE
  {
    FirstBatch(if lastID > 0 then Above(ids, lastID) else ids)
  }

  function Above(ids: seq<int>, lastID: int): seq<int> {
    if ids == [] then []
    else (if ids[0] > lastID then [ids[0]] else []) + Above(ids[1..], lastID)
  }

  predicate Ascending(ids: seq<int>) {
    forall i, j :: 0 <= i < j < |ids| ==> ids[i] < ids[j]
  }

  lemma {:induction false} AboveIsSuffix(ids: seq<int>, n: nat)
    requires Ascending(ids) && 0 < n <= |ids|
    ensures Above(ids, ids[n - 1]) == ids[n..]
  {
    var rest := ids[1..];
    assert forall i :: 0 <= i < |rest| ==> rest[i] == ids[i + 1];
    if n > 1 {
      AboveIsSuffix(rest, n - 1);
      assert rest[n - 1..] == ids[n..];
    } else {
      AboveAll(rest, ids[0]);
    }
  }

  lemma {:induction false} AboveAll(ids: seq<int>, lastID: int)
    requires forall i :: 0 <= i < |ids| ==> ids[i] > lastID
    ensures Above(ids, lastID) == ids
  {
    if ids != [] {
      AboveAll(ids[1..], lastID);
      assert ids == [ids[0]] + ids[1..];
    }
  }

  /** `visited` is what a scan has seen when it is about to ask for ids above `lastID`. */
  ghost predicate ScannedUpTo(ids: seq<int>, visited: seq<int>, lastID: int) {
    visited <= ids && lastID == if visited == [] then 0 else visited[|visited| - 1]
  }

  function FirstBatch(ids: seq<int>): seq<int> {
    if |ids| <= BATCH_SIZE then ids else ids[..BATCH_SIZE]
  }

  lemma FindsTheRest(ids: seq<int>, visited: seq<int>, lastID: int)
    requires Ascending(ids) && (forall id :: id in ids ==> id > 0) && ScannedUpTo(ids, visited, lastID)
    ensures FindAfter(ids, lastID) == FirstBatch(ids[|visited|..])
  {
    hide Above;
    var n := |visited|;
    if n > 0 {
      assert lastID == ids[n - 1] && ids[n - 1] in ids;
      AboveIsSuffix(ids, n);
    } else {
      assert ids[0..] == ids;
    }
  }

  /** The next batch continues where the scan stopped; a short batch is the last one. */
  lemma NextBatch(ids: seq<int>, visited: seq<int>, lastID: int)
    requires Ascending(ids) && (forall id :: id in ids ==> id > 0) && ScannedUpTo(ids, visited, lastID)
    ensures var batch := FindAfter(ids, lastID);
            && (|batch| > 0 ==> ScannedUpTo(ids, visited + batch, batch[|batch| - 1]))
            && (|batch| < BATCH_SIZE ==> visited + batch == ids)
  {
    hide FindAfter, Ascending;
    FindsTheRest(ids, visited, lastID);
    var batch := FindAfter(ids, lastID);
    var n := |visited|;
    assert batch == ids[n..n + |batch|];
    assert visited + batch == ids[..n + |batch|];
    assert visited + ids[n..] == ids;
  }

  /** A batch has a hundred ids unless fewer are left. */
  lemma BatchHasHundred(ids: seq<int>, visited: seq<int>, lastID: int)
    requires Ascending(ids) && (forall id :: id in ids ==> id > 0) && ScannedUpTo(ids, visited, lastID)
    ensures |FindAfter(ids, lastID)| == if |ids| - |visited| < 100 then |ids| - |visited| else 100
  {
    hide FindAfter, Ascending;
    FindsTheRest(ids, visited, lastID);
  }

  /** The keyset scan visits every enabled channel exactly once, in id order, and stops. */
  method ScanEnabled(ids: seq<int>) returns (visited: seq<int>)
    requires Ascending(ids) && forall id :: id in ids ==> id > 0
    ensures visited == ids
  {
    visited := [];
    var lastID := 0;
    while true
      invariant ScannedUpTo(ids, visited, lastID)
      decreases |ids| - |visited|
    {
      NextBatch(ids, visited, lastID);
      var batch := FindAfter(ids, lastID);
      if |batch| == 0 {
        assert visited + batch == visited;
        break;
      }
      lastID := batch[|batch| - 1];
      visited := visited + batch;
      if |batch| < BATCH_SIZE {
        break;
      }
    }
  }
}
