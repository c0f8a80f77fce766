/**
 What the key manager keeps over runs of requests, status reports and changes by tag (controller/channel.go,
 ManageMultiKeys; model/channel.go, UpdateChannelStatus).
 */
module MultiKeyRuns {
  import opened Common
  import opened Text
  import opened ModelNames
  import opened MultiKey

  // ---------------------------------------------------------------- writing the key list back

  /** The first and the last key of the list are not blank. */
  predicate SolidEnds(records: seq<KeyRecord>) {
    records == [] || (records[0].key != "" && records[|records| - 1].key != "")
  }

  /** Nothing is written for an empty list: the old keys stay, without any entries. */
  lemma WrittenNothing(records: seq<KeyRecord>)
    ensures Written(Keys(records), []) == AllEnabled(records)
  {
    assert Keys([]) == [];
  }

  /** Fewer records than before read back as they were written exactly when neither end is blank. */
  lemma WrittenIff(oldKeys: seq<string>, records: seq<KeyRecord>)
    requires SepFree(Keys(records), '\n') && 0 < |records| < |oldKeys|
    ensures Written(oldKeys, records) == records <==> SolidEnds(records)
    ensures |Written(oldKeys, records)| == |records| <==> SolidEnds(records)
  {
    var keys := Keys(records);
    var field := Join(keys, '\n');
    SplitTrimJoin(keys, '\n');
    hide Join, Split, TrimChar;
    if SolidEnds(records) {
      assert field != "" by { JoinNotEmpty(keys); }
      assert KeysOf(field) == keys;
    } else if field != "" {
      assert |keys| > 1 by { JoinOne(keys); }
    }
  }

  lemma JoinNotEmpty(keys: seq<string>)
    requires keys != [] && keys[0] != ""
    ensures Join(keys, '\n') != ""
  {
  }

  lemma JoinOne(keys: seq<string>)
    ensures keys == [""] ==> Join(keys, '\n') == ""
  {
  }

  /** What an action is meant to do: deleting takes the records off, and never the last one. */
  function Expected(records: seq<KeyRecord>, action: Action): seq<KeyRecord> {
    match action
    case DeleteKey(i) =>
      if 0 <= i < |records| && |records| > 1 then Skipping(records, i, |records|) else records
    case DeleteDisabled =>
      var rest := Survivors(records);
      if |rest| == |records| then records
      else if rest == [] then AllEnabled(records)     // see DeletingEverythingRevives
      else rest
    case _ => Apply(records, action)
  }

  /** A deletion leaves no blank key at an end of the list. */
  predicate Solid(records: seq<KeyRecord>, action: Action) {
    match action
    case DeleteKey(i) => !(0 <= i < |records| && |records| > 1) || SolidEnds(Skipping(records, i, |records|))
    case DeleteDisabled => |Survivors(records)| == |records| || SolidEnds(Survivors(records))
    case _ => true
  }

  lemma {:induction false} SurvivorKeys(records: seq<KeyRecord>)
    requires SepFree(Keys(records), '\n')
    ensures SepFree(Keys(Survivors(records)), '\n')
  {
    if records != [] {
      var n := |records| - 1;
      assert forall i :: 0 <= i < n ==> Keys(records[..n])[i] == Keys(records)[i];
      SurvivorKeys(records[..n]);
      var a := Survivors(records[..n]);
      assert forall i :: 0 <= i < |a| ==> Keys(Survivors(records))[i] == Keys(a)[i];
      assert Keys(records)[n] in Keys(records);
    }
  }

  /**
   A request does to the stored channel what it is meant to do exactly when it leaves no blank key at an end:
   otherwise the key field is trimmed when it is read back, and the entries no longer fit the keys.
   */
  lemma ActsAsExpectedIff(records: seq<KeyRecord>, action: Action)
    requires SepFree(Keys(records), '\n')
    ensures Apply(records, action) == Expected(records, action) <==> Solid(records, action)
  {
    hide Written;
    match action {
      case DeleteKey(i) =>
        if 0 <= i < |records| && |records| > 1 {
          var rest := Skipping(records, i, |records|);
          assert forall k :: 0 <= k < |rest| ==> Keys(rest)[k] == Keys(records)[if k < i then k else k + 1];
          WrittenIff(Keys(records), rest);
        }
      case DeleteDisabled =>
        var rest := Survivors(records);
        SurvivorKeys(records);
        if rest == [] {
          WrittenNothing(records);
        } else if |rest| < |records| {
          WrittenIff(Keys(records), rest);
        }
      case _ =>
    }
  }

  /**
   Deleting the first of three keys when the second is blank: the third loses its status, and its time and reason
   stay at position 1 of a channel with one key.
   */
  lemma BlankKeyLosesStatus()
    ensures var off := KeyRecord("b", AUTO_DISABLED, Some(7), Some("quota"));
            var records := [KeyRecord("a", ENABLED, None, None), KeyRecord("", ENABLED, None, None), off];
            && Apply(records, DeleteKey(0)) == [KeyRecord("b", ENABLED, None, None)]
            && !TidyAfter(true, records, DeleteKey(0))
  {
    var off := KeyRecord("b", AUTO_DISABLED, Some(7), Some("quota"));
    var blank := KeyRecord("", ENABLED, None, None);
    var records := [KeyRecord("a", ENABLED, None, None), blank, off];
    var rest := Skipping(records, 0, 3);
    assert rest == [blank, off];
    assert Keys(rest) == ["", "b"];
    assert ["", "b"][1..] == ["b"] && Join(["b"], '\n') == "b";
    var field := Join(["", "b"], '\n');
    assert field == "" + ['\n'] + "b";
    assert field[1..] == "b";
    assert TrimChar("b", '\n') == "b";
    SplitWhole("b", '\n');
    assert Apply(records, DeleteKey(0)) == [KeyRecord("b", ENABLED, None, None)];
    hide Apply, Skipping;
    assert rest[1].time.Some?;
  }

  // ---------------------------------------------------------------- what each action does, key by key

  /** The requests that do not delete: exactly these changes to exactly these records. */
  lemma RequestMeans(records: seq<KeyRecord>, i: int, k: nat)
    requires k < |records|
    ensures |Apply(records, DisableKey(i))| == |Apply(records, EnableKey(i))| == |records|
    ensures |Apply(records, EnableAll)| == |Apply(records, DisableAll)| == |records|
    ensures Apply(records, DisableKey(i))[k] ==
            if k == i then KeyRecord(records[k].key, 2, records[k].time, records[k].reason) else records[k]
    ensures Apply(records, EnableKey(i))[k] ==
            if k == i then KeyRecord(records[k].key, 1, None, None) else records[k]
    ensures Apply(records, EnableAll)[k] == KeyRecord(records[k].key, 1, None, None)
    ensures Apply(records, DisableAll)[k] ==
            if records[k].status == 1 then KeyRecord(records[k].key, 2, records[k].time, records[k].reason)
            else records[k]
  {
  }

  /** Deleting one key takes it off and nothing else; the last key stays. */
  lemma DeleteKeyMeans(records: seq<KeyRecord>, i: int)
    requires SepFree(Keys(records), '\n')
    ensures !(0 <= i < |records|) || |records| == 1 ==> Apply(records, DeleteKey(i)) == records
    ensures 0 <= i < |records| && |records| > 1 && Solid(records, DeleteKey(i)) ==>
              Apply(records, DeleteKey(i)) == records[..i] + records[i + 1..]
  {
    hide Written;
    ActsAsExpectedIff(records, DeleteKey(i));
  }

  /** The records whose status is not 3. */
  function NotAutoDisabled(records: seq<KeyRecord>): seq<KeyRecord> {
    if records == [] then []
    else if records[0].status == 3 then NotAutoDisabled(records[1..])
    else [records[0]] + NotAutoDisabled(records[1..])
  }

  lemma {:induction false} NotAutoDisabledSnoc(front: seq<KeyRecord>, last: KeyRecord)
    ensures NotAutoDisabled(front + [last]) == NotAutoDisabled(front) + if last.status == 3 then [] else [last]
  {
    if front == [] {
      assert [last][1..] == [];
    } else {
      assert (front + [last])[1..] == front[1..] + [last];
      NotAutoDisabledSnoc(front[1..], last);
    }
  }

  lemma {:induction false} RemainingIs(records: seq<KeyRecord>)
    ensures Remaining(records) == NotAutoDisabled(records)
  {
    if records != [] {
      var n := |records| - 1;
      RemainingIs(records[..n]);
      NotAutoDisabledSnoc(records[..n], records[n]);
      assert records == records[..n] + [records[n]];
    }
  }

  /** Deleting the auto-disabled keys keeps exactly the other records of a clean list, in order. */
  lemma DeleteDisabledMeans(records: seq<KeyRecord>)
    requires SepFree(Keys(records), '\n') && AllClean(records) && Solid(records, DeleteDisabled)
    ensures NotAutoDisabled(records) != [] ==> Apply(records, DeleteDisabled) == NotAutoDisabled(records)
  {
    ActsAsExpectedIff(records, DeleteDisabled);
    SurvivorsKeepRecords(records);
    RemainingIs(records);
    hide Apply, Survivors, Remaining, NotAutoDisabled, AllClean, Solid;
    AllSurvive(records);
    if |Survivors(records)| == |records| {
      AllRemain(records);
    }
  }

  lemma {:induction false} AllRemain(records: seq<KeyRecord>)
    requires forall i :: 0 <= i < |records| ==> records[i].status != AUTO_DISABLED
    ensures NotAutoDisabled(records) == records
  {
    if records != [] {
      AllRemain(records[1..]);
    }
  }

  lemma {:induction false} SurvivorsOfDisabled(records: seq<KeyRecord>)
    ensures Keys(Survivors(Apply(records, DisableAll))) == Keys(Survivors(records))
  {
    if records != [] {
      var n := |records| - 1;
      var all := Apply(records, DisableAll);
      SurvivorsOfDisabled(records[..n]);
      assert all[..n] == Apply(records[..n], DisableAll);
      var a, b := Survivors(all[..n]), Survivors(records[..n]);
      assert forall i :: 0 <= i < |a| ==> Keys(a)[i] == Keys(b)[i];
      assert all[n].key == records[n].key;
      KeysOfConcat(a, all[n]);
      KeysOfConcat(b, records[n]);
      KeysOfConcat(a, Cleaned(all[n]));
      KeysOfConcat(b, Cleaned(records[n]));
    }
  }

  lemma KeysOfConcat(a: seq<KeyRecord>, x: KeyRecord)
    ensures Keys(a + [x]) == Keys(a) + [x.key]
  {
  }

  /** Disabling all keys by hand does not change which keys delete_disabled_keys removes. */
  lemma DisablingDoesNotProtect(records: seq<KeyRecord>)
    ensures Keys(Apply(Apply(records, DisableAll), DeleteDisabled)) == Keys(Apply(records, DeleteDisabled))
  {
    var all := Apply(records, DisableAll);
    SurvivorsOfDisabled(records);
    assert Keys(all) == Keys(records);
    var a, b := Survivors(all), Survivors(records);
    hide Survivors;
    assert |a| == |Keys(a)| == |Keys(b)| == |b|;
    if |b| < |records| {
      SameKeysWritten(Keys(records), a, b);
    }
  }

  lemma SameKeysWritten(oldKeys: seq<string>, a: seq<KeyRecord>, b: seq<KeyRecord>)
    requires Keys(a) == Keys(b)
    ensures Keys(Written(oldKeys, a)) == Keys(Written(oldKeys, b))
  {
    hide KeysOf, Join;
  }

  /** The answer to disable_all_keys counts the enabled keys. */
  lemma {:induction false} CountEnabledIs(records: seq<KeyRecord>)
    ensures CountEnabled(records) == |set i | 0 <= i < |records| && records[i].status == 1|
  {
    var all := set i | 0 <= i < |records| && records[i].status == 1;
    if records != [] {
      var n := |records| - 1;
      CountEnabledIs(records[..n]);
      var front := set i | 0 <= i < n && records[..n][i].status == 1;
      assert front == set i | 0 <= i < n && records[i].status == 1;
      assert all == if records[n].status == 1 then front + {n} else front;
    }
  }

  /**
   A stored report about a key: its first record gets the status, the time and the reason, or, when it is enabled
   (status 1), only the status; the channel is disabled (status 3) exactly when no key is enabled any more, enabled
   when a key was, and left alone otherwise.
   */
  lemma ReportMeans(s: State, key: string, status: int, why: string, now: int, k: nat)
    requires s.status != status && k < |s.records| && s.records[k].key == key
    requires forall i | 0 <= i < k :: s.records[i].key != key
    ensures var t := Reported(s, key, status, why, now);
            && |t.records| == |s.records|
            && (forall i | 0 <= i < |s.records| && i != k :: t.records[i] == s.records[i])
            && (status != 1 ==> t.records[k] == KeyRecord(key, status, Some(now), Some(why)))
            && (status == 1 ==> t.records[k] == KeyRecord(key, 1, s.records[k].time, s.records[k].reason))
            && ((forall i | 0 <= i < |s.records| :: t.records[i].status != 1) ==> t.status == 3)
            && ((exists i :: 0 <= i < |s.records| && t.records[i].status == 1) ==>
                  t.status == if status == 1 then 1 else s.status)
  {
    FirstIs(s.records, key, k);
  }

  /** A report about no key of the channel changes nothing, or only its status when no key is named. */
  lemma ReportOfNoKeyMeans(s: State, key: string, status: int, why: string, now: int)
    requires s.records != [] && forall i | 0 <= i < |s.records| :: s.records[i].key != key
    ensures Reported(s, key, status, why, now) == if key == "" then State(status, s.records) else s
    ensures Reported(State(status, s.records), key, status, why, now) == State(status, s.records)
  {
    FirstIs(s.records, key, |s.records|);
  }

  // ---------------------------------------------------------------- runs

  datatype Event =
    | Request(action: Action)
    | Report(key: string, status: int, why: string, now: int)
    | ByTag(status: int)

  /** One event on the stored channel; a change by tag sets only the status of the channel itself. */
  function After(s: State, event: Event): State {
    match event
    case Request(action) => s.(records := Apply(s.records, action))
    case Report(key, status, why, now) => Reported(s, key, status, why, now)
    case ByTag(status) => s.(status := status)
  }

  /** The last change by tag decides the status of the channel, and no key is touched. */
  lemma TagMeans(s: State, a: int, b: int)
    ensures AfterAll(s, [ByTag(a), ByTag(b)]) == State(b, s.records)
  {
    assert [ByTag(a), ByTag(b)][..1] == [ByTag(a)];
    assert AfterAll(s, [ByTag(a)]) == After(s, ByTag(a));
  }

  function AfterAll(s: State, events: seq<Event>): State {
    if events == [] then s else After(AfterAll(s, events[..|events| - 1]), events[|events| - 1])
  }

  /** Whether all times and reasons lie within the keys after a run. */
  function TidyAfterAll(tidy: bool, s: State, events: seq<Event>): bool {
    if events == [] then tidy
    else
      var front, last := events[..|events| - 1], events[|events| - 1];
      if last.Request? then TidyAfter(TidyAfterAll(tidy, s, front), AfterAll(s, front).records, last.action)
      else TidyAfterAll(tidy, s, front)
  }

  /** The channel object after any run is the state after that run, and as tidy as that run leaves it. */
  method Perform(channel: Channel, events: seq<Event>)
    requires channel.Valid()
    modifies channel
    ensures channel.Valid() && channel.Current() == AfterAll(old(channel.Current()), events)
    ensures channel.Tidy() == TidyAfterAll(old(channel.Tidy()), old(channel.Current()), events)
  {
    hide Reported, Apply, KeysOf, TidyAfter;
    for k := 0 to |events|
      invariant channel.Valid() && channel.Current() == AfterAll(old(channel.Current()), events[..k])
      invariant channel.Tidy() == TidyAfterAll(old(channel.Tidy()), old(channel.Current()), events[..k])
    {
      assert events[..k + 1][..k] == events[..k];
      match events[k] {
        case Request(action) => var _ := channel.Manage(action);
        case Report(key, status, why, now) => var _ := channel.UpdateStatus(key, status, why, now);
        case ByTag(status) => channel.channelStatus := status;
      }
    }
    assert events[..|events|] == events;
  }

  // ---------------------------------------------------------------- all entries stay within the keys

  /** The event is a deletion that leaves a time or a reason beyond the keys that are read back. */
  predicate StrandsEntry(s: State, event: Event) {
    event.Request? && !TidyAfter(true, s.records, event.action)
  }

  /**
   In every state of a run from a tidy channel all times and reasons lie below the number of keys, like the statuses,
   exactly when no event of the run strands an entry.
   */
  lemma {:induction false} RunStaysTidyIff(s: State, events: seq<Event>)
    ensures (forall n | 0 <= n <= |events| :: TidyAfterAll(true, s, events[..n])) <==>
              forall n | 0 <= n < |events| :: !StrandsEntry(AfterAll(s, events[..n]), events[n])
  {
    hide TidyAfter, After, AfterAll;
    if forall n | 0 <= n < |events| :: !StrandsEntry(AfterAll(s, events[..n]), events[n]) {
      for n := 0 to |events|
        invariant forall m | 0 <= m <= n :: TidyAfterAll(true, s, events[..m])
      {
        assert events[..n + 1][..n] == events[..n];
      }
    }
    if forall n | 0 <= n <= |events| :: TidyAfterAll(true, s, events[..n]) {
      forall n | 0 <= n < |events|
        ensures !StrandsEntry(AfterAll(s, events[..n]), events[n])
      {
        assert events[..n + 1][..n] == events[..n];
        assert TidyAfterAll(true, s, events[..n + 1]);
      }
    }
  }

  /** A deletion that leaves no blank key at an end strands nothing. */
  lemma SolidStrandsNothing(s: State, event: Event)
    requires NewlineFree(s) && (event.Request? ==> Solid(s.records, event.action))
    ensures !StrandsEntry(s, event)
  {
    if event.Request? {
      hide Apply, Survivors, Skipping, SolidEnds;
      ActsAsExpectedIff(s.records, event.action);
    }
  }

  /** So all entries of a steady run stay within the keys. */
  lemma {:induction false} SteadyStaysTidy(s: State, events: seq<Event>)
    requires NewlineFree(s) && Steady(s, events)
    ensures forall n | 0 <= n <= |events| :: TidyAfterAll(true, s, events[..n])
  {
    hide NewlineFree, Solid, StrandsEntry, TidyAfterAll, AfterAll;
    forall n | 0 <= n < |events|
      ensures !StrandsEntry(AfterAll(s, events[..n]), events[n])
    {
      RunKeepsNewlineFree(s, events[..n]);
      SolidStrandsNothing(AfterAll(s, events[..n]), events[n]);
    }
    RunStaysTidyIff(s, events);
  }

  // ---------------------------------------------------------------- every key keeps its own data

  /** Every deletion of the run leaves no blank key at an end of the list. */
  ghost predicate Steady(s: State, events: seq<Event>) {
    forall n | 0 <= n < |events| && events[n].Request? :: Solid(AfterAll(s, events[..n]).records, events[n].action)
  }

  ghost predicate NewlineFree(s: State) {
    SepFree(Keys(s.records), '\n')
  }

  lemma SteadyFront(s: State, events: seq<Event>)
    requires Steady(s, events) && events != []
    ensures Steady(s, events[..|events| - 1])
    ensures events[|events| - 1].Request? ==>
              Solid(AfterAll(s, events[..|events| - 1]).records, events[|events| - 1].action)
  {
    var front := events[..|events| - 1];
    forall n | 0 <= n < |front| && front[n].Request?
      ensures Solid(AfterAll(s, front[..n]).records, front[n].action)
    {
      assert front[..n] == events[..n] && front[n] == events[n];
    }
  }

  /** What an action does to the record of one key; `hit` says whether the action names its position. */
  function Effect(records: seq<KeyRecord>, action: Action, hit: bool, r: KeyRecord): KeyRecord {
    match action
    case DisableKey(_) => if hit then r.(status := MANUALLY_DISABLED) else r
    case EnableKey(_) => if hit then Enabled(r) else r
    case EnableAll => Enabled(r)
    case DisableAll => DisableEnabled(r)
    case DeleteKey(_) => r
    case DeleteDisabled =>
      if |Survivors(records)| == |records| then r
      else if Survivors(records) == [] then Enabled(r)
      else Cleaned(r)
  }

  /** Where the key at position `pos` is after the action; None when it was deleted. */
  function Moved(records: seq<KeyRecord>, action: Action, pos: nat): Option<nat>
    requires pos < |records|
  {
    match action
    case DeleteKey(i) =>
      if !(0 <= i < |records| && |records| > 1) || pos < i then Some(pos)
      else if pos == i then None else Some(pos - 1)
    case DeleteDisabled =>
      if |Survivors(records)| == |records| || Survivors(records) == [] then Some(pos)
      else if records[pos].status == AUTO_DISABLED then None
      else Some(|Survivors(records[..pos])|)
    case _ => Some(pos)
  }

  predicate Hits(action: Action, pos: nat) {
    (action.DisableKey? || action.EnableKey?) && action.index == pos
  }

  /** What an event does to the record at position `pos`. */
  function EventEffect(s: State, event: Event, pos: nat, r: KeyRecord): KeyRecord {
    match event
    case Request(action) => Effect(s.records, action, Hits(action, pos), r)
    case Report(key, status, why, now) =>
      if s.status != status && pos == FirstWithKey(s.records, key) then Recorded(r, status, why, now) else r
    case ByTag(_) => r
  }

  function EventMoved(s: State, event: Event, pos: nat): Option<nat>
    requires pos < |s.records|
  {
    if event.Request? then Moved(s.records, event.action, pos) else Some(pos)
  }

  lemma {:induction false} SurvivorAt(records: seq<KeyRecord>, pos: nat)
    requires pos < |records| && records[pos].status != AUTO_DISABLED
    ensures var j := |Survivors(records[..pos])|;
            j < |Survivors(records)| && Survivors(records)[j] == Cleaned(records[pos])
    decreases |records|
  {
    var n := |records| - 1;
    if pos < n {
      SurvivorAt(records[..n], pos);
      assert records[..n][..pos] == records[..pos];
    }
  }

  /** One action: the surviving key is found at its new position with its own record, changed only by its effect. */
  lemma ActionMovesRecord(records: seq<KeyRecord>, action: Action, pos: nat)
    requires pos < |records| && Moved(records, action, pos).Some?
    ensures var j := Moved(records, action, pos).value;
            && j < |Expected(records, action)|
            && Expected(records, action)[j] == Effect(records, action, Hits(action, pos), records[pos])
  {
    if action.DeleteDisabled? && records[pos].status != AUTO_DISABLED {
      SurvivorAt(records, pos);
    }
  }

  lemma EventMovesRecord(s: State, event: Event, pos: nat)
    requires pos < |s.records| && EventMoved(s, event, pos).Some?
    requires NewlineFree(s) && (event.Request? ==> Solid(s.records, event.action))
    ensures var j := EventMoved(s, event, pos).value;
            && j < |After(s, event).records|
            && After(s, event).records[j] == EventEffect(s, event, pos, s.records[pos])
  {
    if event.Request? {
      hide Apply, Expected, Solid, Effect, Moved;
      ActsAsExpectedIff(s.records, event.action);
      ActionMovesRecord(s.records, event.action, pos);
    }
  }

  /** The fate of one key over a whole run: its final position and the record its own effects produce. */
  function Fate(s: State, events: seq<Event>, i: nat): (r: Option<(nat, KeyRecord)>)
    requires i < |s.records|
  {
    if events == [] then Some((i, s.records[i]))
    else
      var front, last := events[..|events| - 1], events[|events| - 1];
      var fate, before := Fate(s, front, i), AfterAll(s, front);
      if fate.None? || fate.value.0 >= |before.records| then None
      else
        var moved := EventMoved(before, last, fate.value.0);
        if moved.None? then None else Some((moved.value, EventEffect(before, last, fate.value.0, fate.value.1)))
  }

  lemma WrittenNewlineFree(oldKeys: seq<string>, records: seq<KeyRecord>)
    requires SepFree(oldKeys, '\n')
    ensures SepFree(Keys(Written(oldKeys, records)), '\n')
  {
    var field := Join(Keys(records), '\n');
    KeysHaveNoNewline(field);
    hide KeysOf, Join;
    assert Keys(Written(oldKeys, records)) == if field == "" then oldKeys else KeysOf(field);
  }

  lemma EventKeepsNewlineFree(s: State, event: Event)
    requires NewlineFree(s)
    ensures NewlineFree(After(s, event))
  {
    hide Written, Survivors;
    var t := After(s, event);
    if event.Request? && (event.action.DeleteKey? || event.action.DeleteDisabled?) {
      WrittenNewlineFree(Keys(s.records), Survivors(s.records));
      if event.action.DeleteKey? && 0 <= event.action.index < |s.records| {
        WrittenNewlineFree(Keys(s.records), Skipping(s.records, event.action.index, |s.records|));
      }
    } else {
      assert Keys(t.records) == Keys(s.records);
    }
  }

  lemma {:induction false} RunKeepsNewlineFree(s: State, events: seq<Event>)
    requires NewlineFree(s)
    ensures NewlineFree(AfterAll(s, events))
  {
    if events != [] {
      hide After, NewlineFree;
      RunKeepsNewlineFree(s, events[..|events| - 1]);
      EventKeepsNewlineFree(AfterAll(s, events[..|events| - 1]), events[|events| - 1]);
    }
  }

  /**
   Over any run of requests, reports and changes by tag each surviving key ends with the status, time and reason
   that its own history gives it: re-indexing never mixes up two keys, as long as no deletion leaves a blank
   key at an end.
   */
  lemma {:induction false} EachKeyKeepsItsData(s: State, events: seq<Event>, i: nat)
    requires i < |s.records| && NewlineFree(s) && Steady(s, events)
    ensures var fate, end := Fate(s, events, i), AfterAll(s, events);
            fate.Some? ==> && fate.value.0 < |end.records|
                           && end.records[fate.value.0] == fate.value.1
                           && fate.value.1.key == s.records[i].key
  {
    if events != [] {
      hide Steady, NewlineFree, Solid, After, EventMoved;
      var front, last := events[..|events| - 1], events[|events| - 1];
      SteadyFront(s, events);
      EachKeyKeepsItsData(s, front, i);
      RunKeepsNewlineFree(s, front);
      var fate, before := Fate(s, front, i), AfterAll(s, front);
      if fate.Some? && EventMoved(before, last, fate.value.0).Some? {
        EventMovesRecord(before, last, fate.value.0);
      }
    }
  }

  lemma {:induction false} SurvivorsMonotone(records: seq<KeyRecord>, p: nat, q: nat)
    requires p <= q <= |records|
    ensures |Survivors(records[..p])| <= |Survivors(records[..q])|
    ensures p < q && records[p].status != AUTO_DISABLED ==> |Survivors(records[..p])| < |Survivors(records[..q])|
    decreases q
  {
    if p < q {
      SurvivorsMonotone(records, p, q - 1);
      assert records[..q][..q - 1] == records[..q - 1];
    }
  }

  lemma EventKeepsOrder(s: State, event: Event, p: nat, q: nat)
    requires p < q < |s.records| && EventMoved(s, event, p).Some? && EventMoved(s, event, q).Some?
    ensures EventMoved(s, event, p).value < EventMoved(s, event, q).value
  {
    if event.Request? && event.action.DeleteDisabled? {
      SurvivorsMonotone(s.records, p, q);
    }
  }

  /** Surviving keys keep their order. */
  lemma {:induction false} RunKeepsOrder(s: State, events: seq<Event>, i: nat, j: nat)
    requires i < j < |s.records| && Fate(s, events, i).Some? && Fate(s, events, j).Some?
    ensures Fate(s, events, i).value.0 < Fate(s, events, j).value.0
  {
    if events != [] {
      hide EventMoved, After, EventEffect;
      var front, last := events[..|events| - 1], events[|events| - 1];
      RunKeepsOrder(s, front, i, j);
      EventKeepsOrder(AfterAll(s, front), last, Fate(s, front, i).value.0, Fate(s, front, j).value.0);
    }
  }

  lemma {:induction false} SurvivorOrigin(records: seq<KeyRecord>, j: nat) returns (pos: nat)
    requires j < |Survivors(records)|
    ensures pos < |records| && records[pos].status != AUTO_DISABLED && |Survivors(records[..pos])| == j
  {
    var n := |records| - 1;
    if j < |Survivors(records[..n])| {
      pos := SurvivorOrigin(records[..n], j);
      assert records[..n][..pos] == records[..pos];
    } else {
      pos := n;
    }
  }

  lemma ActionOrigin(records: seq<KeyRecord>, action: Action, j: nat) returns (pos: nat)
    requires j < |Expected(records, action)|
    ensures pos < |records| && Moved(records, action, pos) == Some(j)
  {
    match action {
      case DeleteKey(i) => pos := if 0 <= i <= j && |records| > 1 && i < |records| then j + 1 else j;
      case DeleteDisabled =>
        if |Survivors(records)| == |records| || Survivors(records) == [] {
          pos := j;
        } else {
          pos := SurvivorOrigin(records, j);
        }
      case _ => pos := j;
    }
  }

  /** Every key of the final list is one of the original keys: nothing is invented or duplicated. */
  lemma {:induction false} EveryKeyHasAnOrigin(s: State, events: seq<Event>, j: nat) returns (i: nat)
    requires NewlineFree(s) && Steady(s, events) && j < |AfterAll(s, events).records|
    ensures i < |s.records| && Fate(s, events, i).Some? && Fate(s, events, i).value.0 == j
  {
    if events == [] {
      i := j;
    } else {
      hide Steady, NewlineFree, Solid, Apply, Expected, Moved, EventEffect;
      var front, last := events[..|events| - 1], events[|events| - 1];
      SteadyFront(s, events);
      RunKeepsNewlineFree(s, front);
      var before := AfterAll(s, front);
      var pos := j;
      if last.Request? {
        assert SepFree(Keys(before.records), '\n') by { NewlineFreeKeys(before); }
        ActsAsExpectedIff(before.records, last.action);
        pos := ActionOrigin(before.records, last.action, j);
      }
      i := EveryKeyHasAnOrigin(s, front, pos);
    }
  }

  lemma NewlineFreeKeys(s: State)
    requires NewlineFree(s)
    ensures SepFree(Keys(s.records), '\n')
  {
  }

  // ---------------------------------------------------------------- no blank keys, no trouble

  predicate NoBlank(records: seq<KeyRecord>) {
    forall i :: 0 <= i < |records| ==> records[i].key != ""
  }

  lemma {:induction false} SurvivorsNoBlank(records: seq<KeyRecord>)
    requires NoBlank(records)
    ensures NoBlank(Survivors(records))
  {
    if records != [] {
      SurvivorsNoBlank(records[..|records| - 1]);
    }
  }

  lemma ActionKeepsNoBlank(records: seq<KeyRecord>, action: Action)
    requires SepFree(Keys(records), '\n') && NoBlank(records)
    ensures Solid(records, action) && NoBlank(Apply(records, action))
  {
    ExpectedNoBlank(records, action);
    ActsAsExpectedIff(records, action);
    hide Apply, Expected, SepFree, Solid, NoBlank;
  }

  lemma ExpectedNoBlank(records: seq<KeyRecord>, action: Action)
    requires NoBlank(records)
    ensures Solid(records, action) && NoBlank(Expected(records, action))
  {
    SurvivorsNoBlank(records);
    hide Survivors, Written;
  }

  lemma EventKeepsNoBlank(s: State, event: Event)
    requires NewlineFree(s) && NoBlank(s.records)
    ensures event.Request? ==> Solid(s.records, event.action)
    ensures NoBlank(After(s, event).records)
  {
    if event.Request? {
      ActionKeepsNoBlank(s.records, event.action);
      hide Solid, Apply, NoBlank;
    } else {
      assert forall i :: 0 <= i < |s.records| ==> After(s, event).records[i].key == s.records[i].key;
    }
  }

  /** A channel whose keys are not blank is steady in every run. */
  lemma {:induction false} NoBlankIsSteady(s: State, events: seq<Event>)
    requires NewlineFree(s) && NoBlank(s.records)
    ensures Steady(s, events) && NoBlank(AfterAll(s, events).records)
  {
    if events != [] {
      hide NewlineFree, NoBlank, Solid, After;
      var front, last := events[..|events| - 1], events[|events| - 1];
      NoBlankIsSteady(s, front);
      RunKeepsNewlineFree(s, front);
      EventKeepsNoBlank(AfterAll(s, front), last);
      SteadySnoc(s, events);
    }
  }

  lemma SteadySnoc(s: State, events: seq<Event>)
    requires events != [] && Steady(s, events[..|events| - 1])
    requires events[|events| - 1].Request? ==>
               Solid(AfterAll(s, events[..|events| - 1]).records, events[|events| - 1].action)
    ensures Steady(s, events)
  {
    hide Solid, AfterAll;
    var front := events[..|events| - 1];
    forall n | 0 <= n < |events| && events[n].Request?
      ensures Solid(AfterAll(s, events[..n]).records, events[n].action)
    {
      if n < |front| {
        assert front[..n] == events[..n] && front[n] == events[n];
      }
    }
  }

  // ---------------------------------------------------------------- invariants of every run

  lemma WrittenClean(oldKeys: seq<string>, records: seq<KeyRecord>)
    requires AllClean(records)
    ensures AllClean(Written(oldKeys, records)) && (oldKeys != [] ==> Written(oldKeys, records) != [])
  {
  }

  lemma ActionKeepsClean(records: seq<KeyRecord>, action: Action)
    ensures records != [] ==> Apply(records, action) != []
    ensures AllClean(records) ==> AllClean(Apply(records, action))
  {
    hide Written;
    if action.DeleteKey? && 0 <= action.index < |records| {
      WrittenNotEmpty(Keys(records), Skipping(records, action.index, |records|));
      if AllClean(records) {
        WrittenClean(Keys(records), Skipping(records, action.index, |records|));
      }
    } else if action.DeleteDisabled? {
      WrittenClean(Keys(records), Survivors(records));
    }
  }

  lemma WrittenNotEmpty(oldKeys: seq<string>, records: seq<KeyRecord>)
    ensures oldKeys != [] ==> Written(oldKeys, records) != []
  {
  }

  /** Whatever happens, at least one key is left. */
  lemma {:induction false} NeverEmpty(s: State, events: seq<Event>)
    requires s.records != []
    ensures AfterAll(s, events).records != []
  {
    if events != [] {
      hide Apply;
      var front, last := events[..|events| - 1], events[|events| - 1];
      NeverEmpty(s, front);
      if last.Request? {
        ActionKeepsClean(AfterAll(s, front).records, last.action);
      }
    }
  }

  /** A report about a key keeps enabled keys clean unless it enables a key that has a time or a reason. */
  lemma StatusKeepsCleanIff(records: seq<KeyRecord>, key: string, status: int, why: string, now: int)
    requires AllClean(records)
    ensures var k := FirstWithKey(records, key);
            AllClean(ApplyStatus(records, key, status, why, now)) <==>
              k == |records| || status != ENABLED || (records[k].time == None && records[k].reason == None)
  {
    var k := FirstWithKey(records, key);
    if k < |records| {
      var r := ApplyStatus(records, key, status, why, now);
      assert forall i :: 0 <= i < |records| && i != k ==> r[i] == records[i];
      assert r[k] == Recorded(records[k], status, why, now);
    }
  }

  /** The event enables a key that has a time or a reason, and the channel itself is not enabled. */
  predicate LeavesTraces(s: State, event: Event) {
    event.Report? && event.status == ENABLED && s.status != ENABLED &&
    var k := FirstWithKey(s.records, event.key);
    k < |s.records| && (s.records[k].time.Some? || s.records[k].reason.Some?)
  }

  lemma EventKeepsCleanIff(s: State, event: Event)
    requires AllClean(s.records)
    ensures AllClean(After(s, event).records) <==> !LeavesTraces(s, event)
  {
    hide AllClean;
    match event
    case Request(action) => ActionKeepsClean(s.records, action);
    case Report(key, status, why, now) => StatusKeepsCleanIff(s.records, key, status, why, now);
    case ByTag(_) =>
  }

  /**
   Enabled keys carry no leftover time or reason in any state of a run, exactly when no event of the run enables
   a key that has one while the channel itself is not enabled.
   */
  lemma {:induction false} RunStaysCleanIff(s: State, events: seq<Event>)
    requires AllClean(s.records)
    ensures (forall n | 0 <= n <= |events| :: AllClean(AfterAll(s, events[..n]).records)) <==>
              forall n | 0 <= n < |events| :: !LeavesTraces(AfterAll(s, events[..n]), events[n])
  {
    hide AllClean, LeavesTraces, After;
    if forall n | 0 <= n < |events| :: !LeavesTraces(AfterAll(s, events[..n]), events[n]) {
      for n := 0 to |events|
        invariant forall m | 0 <= m <= n :: AllClean(AfterAll(s, events[..m]).records)
      {
        assert events[..n + 1][..n] == events[..n];
        EventKeepsCleanIff(AfterAll(s, events[..n]), events[n]);
      }
    }
    if forall n | 0 <= n <= |events| :: AllClean(AfterAll(s, events[..n]).records) {
      forall n | 0 <= n < |events|
        ensures !LeavesTraces(AfterAll(s, events[..n]), events[n])
      {
        assert events[..n + 1][..n] == events[..n];
        EventKeepsCleanIff(AfterAll(s, events[..n]), events[n]);
      }
    }
  }

  /** In particular requests alone, and reports that only disable, keep a channel clean. */
  lemma WithoutEnablingReportsClean(s: State, events: seq<Event>)
    requires AllClean(s.records)
    requires forall n | 0 <= n < |events| && events[n].Report? :: events[n].status != ENABLED
    ensures AllClean(AfterAll(s, events).records)
  {
    hide AllClean, AfterAll;
    RunStaysCleanIff(s, events);
    assert events[..|events|] == events;
  }

  /**
   A key is disabled by a report and reported enabled again.  Enabled keys stay clean exactly when the channel
   is enabled and has another enabled key; but then the second report is not stored at all.
   */
  lemma ReenablingLeavesTraces(s: State, key: string, why: string, now: int, later: int)
    requires AllClean(s.records) && s.status != AUTO_DISABLED
    requires FirstWithKey(s.records, key) < |s.records|
    ensures var k := FirstWithKey(s.records, key);
            var off := Reported(s, key, AUTO_DISABLED, why, now);
            var on := Reported(off, key, ENABLED, "", later);
            && (AllClean(on.records) <==>
                  s.status == ENABLED && exists i :: 0 <= i < |s.records| && i != k && s.records[i].status == ENABLED)
            && (AllClean(on.records) ==> on == off && on.records[k].status == AUTO_DISABLED)
  {
    var k := FirstWithKey(s.records, key);
    FirstIsFirst(s.records, key);
    var off := Reported(s, key, AUTO_DISABLED, why, now);
    assert off.records == s.records[k := KeyRecord(s.records[k].key, AUTO_DISABLED, Some(now), Some(why))];
    FirstIs(off.records, key, k);
    StatusKeepsCleanIff(s.records, key, AUTO_DISABLED, why, now);
    StatusKeepsCleanIff(off.records, key, ENABLED, "", later);
    OthersEnabled(s.records, off.records, k);
    hide AllClean, SomeEnabled, ApplyStatus;
  }

  lemma OthersEnabled(before: seq<KeyRecord>, after: seq<KeyRecord>, k: nat)
    requires k < |before| == |after| && after[k].status != ENABLED
    requires forall i :: 0 <= i < |before| && i != k ==> after[i] == before[i]
    ensures SomeEnabled(after) <==> exists i :: 0 <= i < |before| && i != k && before[i].status == ENABLED
  {
  }

  /** While the channel is enabled, enabling one key is handled in the cached copy and not stored. */
  lemma EnablingOneKeyIsNotStored(s: State, key: string, now: int)
    requires s.status == ENABLED && FirstWithKey(s.records, key) < |s.records|
    ensures var k := FirstWithKey(s.records, key);
            && Reported(s, key, ENABLED, "", now) == s
            && Handled(s, key, ENABLED, "", now).records[k].status == ENABLED
  {
  }

  // ---------------------------------------------------------------- deleting the auto-disabled keys

  lemma {:induction false} AllSurvive(records: seq<KeyRecord>)
    ensures |Survivors(records)| == |records| <==>
              forall i :: 0 <= i < |records| ==> records[i].status != AUTO_DISABLED
    ensures Survivors(records) == [] <==>
              forall i :: 0 <= i < |records| ==> records[i].status == AUTO_DISABLED
  {
    if records != [] {
      var front, last := records[..|records| - 1], records[|records| - 1];
      AllSurvive(front);
      assert forall i :: 0 <= i < |front| ==> front[i] == records[i];
    }
  }

  /** Afterwards no key is auto-disabled, and a second call finds nothing to do. */
  lemma DeleteDisabledOnce(records: seq<KeyRecord>)
    ensures var once := Apply(records, DeleteDisabled);
            && (forall i :: 0 <= i < |once| ==> once[i].status != AUTO_DISABLED)
            && Apply(once, DeleteDisabled) == once
  {
    AllSurvive(records);
    AllSurvive(Apply(records, DeleteDisabled));
  }

  lemma {:induction false} SameKeysWhenAllSurvive(records: seq<KeyRecord>)
    requires |Survivors(records)| == |records|
    ensures Keys(Survivors(records)) == Keys(records)
  {
    if records != [] {
      var n := |records| - 1;
      AllSurvive(records);
      AllSurvive(records[..n]);
      SameKeysWhenAllSurvive(records[..n]);
      forall i | 0 <= i < n
        ensures Survivors(records)[i].key == records[i].key
      {
        assert Survivors(records)[i] == Survivors(records[..n])[i];
        assert Keys(Survivors(records[..n]))[i] == Keys(records[..n])[i];
      }
    }
  }

  /**
   The auto-disabled keys are really deleted exactly when some other key is left and neither end of what is left
   is blank.  When every key is auto-disabled the empty key list is not written, so all keys come back, enabled.
   */
  lemma DeletingEverythingRevives(records: seq<KeyRecord>)
    requires records != [] && SepFree(Keys(records), '\n')
    ensures Keys(Apply(records, DeleteDisabled)) == Keys(Survivors(records)) <==>
              (exists i :: 0 <= i < |records| && records[i].status != AUTO_DISABLED) && Solid(records, DeleteDisabled)
    ensures (forall i :: 0 <= i < |records| ==> records[i].status == AUTO_DISABLED) ==>
              Apply(records, DeleteDisabled) == AllEnabled(records)
  {
    AllSurvive(records);
    var rest := Survivors(records);
    hide Survivors, Written;
    if |rest| == |records| {
      SameKeysWhenAllSurvive(records);
    } else if rest == [] {
      WrittenNothing(records);
      assert |Keys(AllEnabled(records))| == |records| && |Keys(rest)| == 0;
    } else {
      SurvivorKeys(records);
      WrittenIff(Keys(records), rest);
      assert |Keys(Apply(records, DeleteDisabled))| == |Written(Keys(records), rest)|;
    }
  }

  /** The records of the keys that are not auto-disabled, unchanged. */
  function Remaining(records: seq<KeyRecord>): seq<KeyRecord> {
    if records == [] then []
    else
      var last := records[|records| - 1];
      Remaining(records[..|records| - 1]) + (if last.status == AUTO_DISABLED then [] else [last])
  }

  /** Survivors keep their records exactly when no enabled key carries a leftover time or reason. */
  lemma {:induction false} SurvivorsKeepRecords(records: seq<KeyRecord>)
    ensures |Survivors(records)| == |Remaining(records)|
    ensures Survivors(records) == Remaining(records) <==> AllClean(records)
  {
    if records != [] {
      var n := |records| - 1;
      SurvivorsKeepRecords(records[..n]);
      assert AllClean(records) <==> AllClean(records[..n]) && CleanRecord(records[n]);
      var a, b := Survivors(records[..n]), Remaining(records[..n]);
      assert records == records[..n] + [records[n]];
      if records[n].status != AUTO_DISABLED {
        assert Survivors(records) == a + [Cleaned(records[n])] && Remaining(records) == b + [records[n]];
        assert Survivors(records)[..|a|] == a && Remaining(records)[..|b|] == b;
        assert Survivors(records)[|a|] == Cleaned(records[n]) && Remaining(records)[|b|] == records[n];
      } else {
        assert Survivors(records) == a && Remaining(records) == b;
      }
    }
  }

  // ---------------------------------------------------------------- replacing the key list

  /**
   The key list is replaced by a shorter one and later by a longer one.  Statuses beyond the shorter list are
   dropped, times and reasons are not: the enabled keys of the longer list are clean exactly when they were clean
   before and no time or reason is stored at the positions in between.
   */
  lemma RegrownCleanIff(shorter: nat, longer: seq<string>, status: map<int, int>, time: map<int, int>,
                        reason: map<int, string>)
    requires shorter <= |longer|
    ensures var kept := map i | i in status && i < shorter :: status[i];
            AllClean(RecordsOf(longer, kept, time, reason)) <==>
              && AllClean(RecordsOf(longer[..shorter], kept, time, reason))
              && forall i :: shorter <= i < |longer| ==> i !in time && i !in reason
  {
    var kept := map i | i in status && i < shorter :: status[i];
    var all, front := RecordsOf(longer, kept, time, reason), RecordsOf(longer[..shorter], kept, time, reason);
    assert forall i :: 0 <= i < shorter ==> all[i] == front[i];
    hide RecordsOf;
    forall i | shorter <= i < |longer|
      ensures CleanRecord(all[i]) <==> i !in time && i !in reason
    {
    }
  }
}
