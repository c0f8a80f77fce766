/**
 Managing the keys of a multi-key channel (controller/channel.go, ManageMultiKeys; model/channel.go).

 The channel stores its keys in one newline-separated field and status, disable time and disable reason in three
 maps from key *position*, which are re-indexed whenever a key is deleted.  Every action is proved to do to
 these fields what a function on a plain list of key records says; MultiKeyRuns proves what that function keeps.
 */
module MultiKey {
  import opened Common
  import opened Text
  import opened ModelNames

  const ENABLED := 1
  const MANUALLY_DISABLED := 2
  const AUTO_DISABLED := 3

  /** A key with everything the channel remembers about it. */
  datatype KeyRecord = KeyRecord(key: string, status: int, time: Option<int>, reason: Option<string>)

  datatype Outcome = Done(count: nat) | OutOfRange | LastKey | NothingToDo

  // ---------------------------------------------------------------- the key field

  /** Channel.GetKeys for the newline format. */
  function KeysOf(field: string): seq<string> {
    if field == "" then [] else Split(TrimChar(field, '\n'), '\n')
  }

  lemma KeysHaveNoNewline(field: string)
    ensures SepFree(KeysOf(field), '\n')
  {
    if field != "" {
      SplitParts(TrimChar(field, '\n'), '\n');
    }
  }

  function Keys(records: seq<KeyRecord>): (keys: seq<string>)
    ensures |keys| == |records|
    ensures forall i :: 0 <= i < |records| ==> keys[i] == records[i].key
  {
    seq(|records|, i requires 0 <= i < |records| => records[i].key)
  }

  /** The records of some keys, when the maps hold the data of `records` by position. */
  function Overlay(keys: seq<string>, records: seq<KeyRecord>): (r: seq<KeyRecord>)
    ensures |r| == |keys|
    ensures forall i :: 0 <= i < |keys| ==>
              r[i] == if i < |records| then records[i].(key := keys[i]) else KeyRecord(keys[i], ENABLED, None, None)
  {
    seq(|keys|, i requires 0 <= i < |keys| =>
      if i < |records| then records[i].(key := keys[i]) else KeyRecord(keys[i], ENABLED, None, None))
  }

  /**
   The records after new ones are written: the keys are joined and read back, the maps are positional.  The
   struct update skips an empty key field, so then the old keys stay.
   */
  function Written(oldKeys: seq<string>, records: seq<KeyRecord>): seq<KeyRecord> {
    var field := Join(Keys(records), '\n');
    Overlay(if field == "" then oldKeys else KeysOf(field), records)
  }

  // ---------------------------------------------------------------- the actions on a list of records

  function Enabled(r: KeyRecord): KeyRecord {
    KeyRecord(r.key, ENABLED, None, None)
  }

  /** Enabled keys carry no leftover time or reason. */
  predicate CleanRecord(r: KeyRecord) {
    r.status == ENABLED ==> r.time == None && r.reason == None
  }

  predicate AllClean(records: seq<KeyRecord>) {
    forall i :: 0 <= i < |records| ==> CleanRecord(records[i])
  }

  /** What delete_disabled_keys keeps of a survivor: an enabled one loses any leftover time and reason. */
  function Cleaned(r: KeyRecord): KeyRecord {
    if r.status == ENABLED then Enabled(r) else r
  }

  function Survivors(records: seq<KeyRecord>): (r: seq<KeyRecord>)
    ensures forall i :: 0 <= i < |r| ==> r[i].status != AUTO_DISABLED && CleanRecord(r[i])
    ensures |r| <= |records|
  {
    if records == [] then []
    else
      var last := records[|records| - 1];
      Survivors(records[..|records| - 1]) + (if last.status == AUTO_DISABLED then [] else [Cleaned(last)])
  }

  function DisableEnabled(r: KeyRecord): KeyRecord {
    if r.status == ENABLED then r.(status := MANUALLY_DISABLED) else r
  }

  function AllEnabled(records: seq<KeyRecord>): seq<KeyRecord> {
    seq(|records|, i requires 0 <= i < |records| => Enabled(records[i]))
  }

  /** The first `n` records without the one at `index`. */
  function Skipping(records: seq<KeyRecord>, index: nat, n: nat): (r: seq<KeyRecord>)
    requires n <= |records|
    ensures |r| == if n <= index then n else n - 1
  {
    if n <= index then records[..n] else records[..index] + records[index + 1..n]
  }

  datatype Action =
    | DisableKey(index: int)
    | EnableKey(index: int)
    | EnableAll
    | DisableAll
    | DeleteKey(index: int)
    | DeleteDisabled

  /** The stored records after the action. */
  function Apply(records: seq<KeyRecord>, action: Action): seq<KeyRecord> {
    match action
    case DisableKey(i) =>
      if 0 <= i < |records| then records[i := records[i].(status := MANUALLY_DISABLED)] else records
    case EnableKey(i) => if 0 <= i < |records| then records[i := Enabled(records[i])] else records
    case EnableAll => AllEnabled(records)
    case DisableAll => seq(|records|, i requires 0 <= i < |records| => DisableEnabled(records[i]))
    case DeleteKey(i) =>
      if 0 <= i < |records| && |records| > 1 then Written(Keys(records), Skipping(records, i, |records|)) else records
    case DeleteDisabled =>
      var rest := Survivors(records);
      if |rest| == |records| then records else Written(Keys(records), rest)
  }

  /** A time or a reason is stored at position n of the list or beyond it. */
  predicate Strands(records: seq<KeyRecord>, n: nat) {
    exists p :: n <= p < |records| && (records[p].time.Some? || records[p].reason.Some?)
  }

  /** Whether all times and reasons lie within the keys after the action, when `tidy` says so before it. */
  predicate TidyAfter(tidy: bool, records: seq<KeyRecord>, action: Action) {
    match action
    case EnableAll => true
    case DeleteKey(i) =>
      if 0 <= i < |records| && |records| > 1
      then !Strands(Skipping(records, i, |records|), |Apply(records, action)|) else tidy
    case DeleteDisabled =>
      if |Survivors(records)| < |records| then !Strands(Survivors(records), |Apply(records, action)|) else tidy
    case _ => tidy
  }

  function CountEnabled(records: seq<KeyRecord>): nat {
    if records == [] then 0
    else CountEnabled(records[..|records| - 1]) + if records[|records| - 1].status == ENABLED then 1 else 0
  }

  // ---------------------------------------------------------------- status reports

  /** The status of the channel itself and its records. */
  datatype State = State(status: int, records: seq<KeyRecord>)

  /** hasEnabledMultiKey */
  predicate SomeEnabled(records: seq<KeyRecord>) {
    exists i :: 0 <= i < |records| && records[i].status == ENABLED
  }

  function FirstWithKey(records: seq<KeyRecord>, key: string): (k: nat)
    ensures k <= |records|
  {
    if records == [] || records[0].key == key then 0 else 1 + FirstWithKey(records[1..], key)
  }

  /** A key's record after a report: enabling changes only the status. */
  function Recorded(r: KeyRecord, status: int, why: string, now: int): KeyRecord {
    if status == ENABLED then r.(status := ENABLED) else KeyRecord(r.key, status, Some(now), Some(why))
  }

  function ApplyStatus(records: seq<KeyRecord>, key: string, status: int, why: string, now: int): seq<KeyRecord> {
    var k := FirstWithKey(records, key);
    if k == |records| then records else records[k := Recorded(records[k], status, why, now)]
  }

  /** handlerMultiKeyUpdate: what a request handler or a channel test reports about one key. */
  function Handled(s: State, key: string, status: int, why: string, now: int): State {
    if FirstWithKey(s.records, key) == |s.records| then
      if s.records == [] || key == "" then s.(status := status) else s
    else
      var records := ApplyStatus(s.records, key, status, why, now);
      State(if !SomeEnabled(records) then AUTO_DISABLED else if status == ENABLED then ENABLED else s.status, records)
  }

  /** UpdateChannelStatus on the stored channel: nothing is stored when the channel itself has that status. */
  function Reported(s: State, key: string, status: int, why: string, now: int): State {
    if s.status == status then s else Handled(s, key, status, why, now)
  }

  lemma {:induction false} FirstIsFirst(records: seq<KeyRecord>, key: string)
    ensures var k := FirstWithKey(records, key);
            && (k < |records| ==> records[k].key == key)
            && forall i :: 0 <= i < k ==> records[i].key != key
  {
    if records != [] && records[0].key != key {
      FirstIsFirst(records[1..], key);
      assert forall i :: 0 < i < |records| ==> records[i] == records[1..][i - 1];
    }
  }

  lemma {:induction false} FirstIs(records: seq<KeyRecord>, key: string, k: nat)
    requires k <= |records| && (k < |records| ==> records[k].key == key)
    requires forall i :: 0 <= i < k ==> records[i].key != key
    ensures FirstWithKey(records, key) == k
  {
    if k > 0 {
      assert forall i :: 0 < i < |records| ==> records[i] == records[1..][i - 1];
      FirstIs(records[1..], key, k - 1);
    }
  }

  // ---------------------------------------------------------------- the channel

  function Get<V>(m: map<int, V>, i: int): Option<V> {
    if i in m then Some(m[i]) else None
  }

  function StatusAt(status: map<int, int>, i: int): int {
    if i in status then status[i] else ENABLED
  }

  /** The record at position `i`, as the maps describe it. */
  function RecordAt(keys: seq<string>, status: map<int, int>, time: map<int, int>, reason: map<int, string>,
                    i: int): KeyRecord
    requires 0 <= i < |keys|
  {
    KeyRecord(keys[i], StatusAt(status, i), Get(time, i), Get(reason, i))
  }

  function RecordsOf(keys: seq<string>, status: map<int, int>, time: map<int, int>, reason: map<int, string>)
    : (r: seq<KeyRecord>)
    ensures |r| == |keys|
    ensures forall i :: 0 <= i < |keys| ==> r[i] == RecordAt(keys, status, time, reason, i)
  {
    seq(|keys|, i requires 0 <= i < |keys| => RecordAt(keys, status, time, reason, i))
  }

  /** The maps `b` extend `a` by what they say about position `n`. */
  ghost predicate Extends<V>(a: map<int, V>, b: map<int, V>, n: int) {
    b - {n} == a && n !in a
  }

  lemma RecordsAppend(keys: seq<string>, key: string,
                      status: map<int, int>, time: map<int, int>, reason: map<int, string>,
                      status': map<int, int>, time': map<int, int>, reason': map<int, string>)
    requires Extends(status, status', |keys|) && Extends(time, time', |keys|) && Extends(reason, reason', |keys|)
    ensures RecordsOf(keys + [key], status', time', reason') ==
            RecordsOf(keys, status, time, reason)
            + [KeyRecord(key, StatusAt(status', |keys|), Get(time', |keys|), Get(reason', |keys|))]
  {
  }

  predicate Below<V>(m: map<int, V>, n: int) {
    forall i :: i in m ==> i < n
  }

  lemma BelowExtends<V>(a: map<int, V>, b: map<int, V>, n: nat)
    requires Below(a, n) && Extends(a, b, n)
    ensures Below(b, n + 1)
  {
    forall i | i in b
      ensures i < n + 1
    {
      assert i == n || i in b - {n};
    }
  }

  /** Changing an entry below n does not matter for what lies beyond it. */
  lemma BelowChanged<V>(m: map<int, V>, i: int, v: V, n: int)
    requires i < n
    ensures Below(m - {i}, n) == Below(m, n) && Below(m[i := v], n) == Below(m, n)
  {
    forall k | k in m && k != i
      ensures k in m - {i} && k in m[i := v]
    {
    }
  }

  /** Times and reasons below the number of keys lie below n exactly when no record strands one there. */
  lemma TidyIff(keys: seq<string>, status: map<int, int>, time: map<int, int>, reason: map<int, string>, n: nat)
    requires Below(time, |keys|) && Below(reason, |keys|)
    ensures Below(time, n) && Below(reason, n) <==> !Strands(RecordsOf(keys, status, time, reason), n)
  {
    var records := RecordsOf(keys, status, time, reason);
    hide RecordsOf;
    if Strands(records, n) {
      var p :| n <= p < |records| && (records[p].time.Some? || records[p].reason.Some?);
      assert p in time || p in reason;
    } else {
      forall i | n <= i < |keys|
        ensures i !in time && i !in reason
      {
        assert records[i].time.None? && records[i].reason.None?;
      }
    }
  }

  class Channel {
    var channelStatus: int              // Status
    var key: string                     // Key
    var size: int                       // MultiKeySize
    var status: map<int, int>           // MultiKeyStatusList
    var time: map<int, int>             // MultiKeyDisabledTime
    var reason: map<int, string>        // MultiKeyDisabledReason

    /** The size is the number of keys and no status is kept beyond it. */
    ghost predicate Valid()
      reads this
    {
      size == |KeysOf(key)| && Below(status, size)
    }

    /** No disable time or reason is kept beyond the keys either. */
    ghost predicate Tidy()
      reads this
    {
      Below(time, size) && Below(reason, size)
    }

    ghost function Records(): (r: seq<KeyRecord>)
      reads this
    {
      RecordsOf(KeysOf(key), status, time, reason)
    }

    ghost function Current(): State
      reads this
    {
      State(channelStatus, Records())
    }

    constructor (key: string, channelStatus: int)
      ensures Valid() && Tidy() && this.channelStatus == channelStatus
      ensures Records() == Overlay(KeysOf(key), [])
    {
      this.key, this.channelStatus := key, channelStatus;
      size := |KeysOf(key)|;
      status, time, reason := map[], map[], map[];
    }

    /**
     Channel.Update: writes the key field, recomputes MultiKeySize from it and drops statuses beyond it; times
     and reasons beyond it stay.  The struct update skips an empty field.
     */
    method Update(newKey: string)
      modifies this
      ensures Valid() && channelStatus == old(channelStatus)
      ensures key == if newKey == "" then old(key) else newKey
      ensures time == old(time) && reason == old(reason)
      ensures forall i :: i in status <==> i in old(status) && i < size
      ensures forall i :: i in status ==> status[i] == old(status)[i]
      ensures Tidy() <==> Below(old(time), size) && Below(old(reason), size)
    {
      hide KeysOf;
      if newKey != "" {
        key := newKey;
      }
      size := |KeysOf(key)|;
      status := map i | i in status && i < size :: status[i];
    }

    method Disable(index: int) returns (outcome: Outcome)
      requires Valid()
      modifies this
      ensures Valid() && Records() == Apply(old(Records()), DisableKey(index))
      ensures channelStatus == old(channelStatus) && Tidy() == old(Tidy())
      ensures outcome == if 0 <= index < |old(Records())| then Done(1) else OutOfRange
    {
      hide KeysOf;
      if index < 0 || index >= size {
        return OutOfRange;
      }
      status := status[index := MANUALLY_DISABLED];
      Update(key);
      return Done(1);
    }

    method Enable(index: int) returns (outcome: Outcome)
      requires Valid()
      modifies this
      ensures Valid() && Records() == Apply(old(Records()), EnableKey(index))
      ensures channelStatus == old(channelStatus) && Tidy() == old(Tidy())
      ensures outcome == if 0 <= index < |old(Records())| then Done(1) else OutOfRange
    {
      hide KeysOf;
      if index < 0 || index >= size {
        return OutOfRange;
      }
      BelowChanged(time, index, 0, size);
      BelowChanged(reason, index, "", size);
      status := status - {index};
      time := time - {index};
      reason := reason - {index};
      Update(key);
      return Done(1);
    }

    method EnableAllKeys() returns (outcome: Outcome)
      requires Valid()
      modifies this
      ensures Valid() && Records() == Apply(old(Records()), EnableAll)
      ensures channelStatus == old(channelStatus) && Tidy()
      ensures outcome == Done(|old(status)|)
    {
      hide KeysOf;
      outcome := Done(|status|);
      status, time, reason := map[], map[], map[];
      Update(key);
    }

    /** The loop of disable_all_keys. */
    method DisableEnabledKeys() returns (disabled: nat)
      requires Valid()
      modifies this`status
      ensures Valid() && Records() == Apply(old(Records()), DisableAll)
      ensures disabled == CountEnabled(old(Records()))
    {
      hide KeysOf;
      disabled := 0;
      ghost var before := Records();
      for i := 0 to size
        invariant Below(status, size)
        invariant forall k :: 0 <= k < size ==>
                    StatusAt(status, k) == if k < i then DisableEnabled(before[k]).status else before[k].status
        invariant disabled == CountEnabled(before[..i])
      {
        assert before[..i + 1][..i] == before[..i];
        if StatusAt(status, i) == ENABLED {
          status := status[i := MANUALLY_DISABLED];
          disabled := disabled + 1;
        }
      }
      assert before[..size] == before;
    }

    method DisableAllKeys() returns (outcome: Outcome)
      requires Valid()
      modifies this
      ensures Valid() && Records() == Apply(old(Records()), DisableAll)
      ensures channelStatus == old(channelStatus) && Tidy() == old(Tidy())
      ensures outcome == if CountEnabled(old(Records())) == 0 then NothingToDo else Done(CountEnabled(old(Records())))
    {
      hide KeysOf, Apply, CountEnabled;
      var disabled := DisableEnabledKeys();
      if disabled == 0 {
        return NothingToDo;
      }
      Update(key);
      return Done(disabled);
    }

    /** Copies the entries of position i to position n of the new maps. */
    method CopyEntries(i: nat, n: nat, s: map<int, int>, t: map<int, int>, r: map<int, string>)
      returns (s': map<int, int>, t': map<int, int>, r': map<int, string>)
      requires i < |KeysOf(key)| && Below(s, n) && Below(t, n) && Below(r, n)
      ensures Extends(s, s', n) && Extends(t, t', n) && Extends(r, r', n)
      ensures KeyRecord(KeysOf(key)[i], StatusAt(s', n), Get(t', n), Get(r', n)) == Records()[i]
    {
      s', t', r' := s, t, r;
      if i in status && status[i] != ENABLED {
        s' := s'[n := status[i]];
      }
      if i in time {
        t' := t'[n := time[i]];
      }
      if i in reason {
        r' := r'[n := reason[i]];
      }
    }

    /** The same for a key that is kept by delete_disabled_keys: an enabled one has no entries. */
    method CopyEntriesIfDisabled(i: nat, n: nat, s: map<int, int>, t: map<int, int>, r: map<int, string>)
      returns (s': map<int, int>, t': map<int, int>, r': map<int, string>)
      requires i < |KeysOf(key)| && Below(s, n) && Below(t, n) && Below(r, n)
      ensures Extends(s, s', n) && Extends(t, t', n) && Extends(r, r', n)
      ensures KeyRecord(KeysOf(key)[i], StatusAt(s', n), Get(t', n), Get(r', n)) == Cleaned(Records()[i])
    {
      s', t', r' := s, t, r;
      if StatusAt(status, i) != ENABLED {
        s' := s'[n := StatusAt(status, i)];
        if i in time {
          t' := t'[n := time[i]];
        }
        if i in reason {
          r' := r'[n := reason[i]];
        }
      }
    }

    /** The loop of delete_key: copies every key but one, moving its entries to the new position. */
    method CopyWithout(index: nat)
      returns (kept: seq<string>, newStatus: map<int, int>, newTime: map<int, int>, newReason: map<int, string>)
      requires Valid()
      ensures Below(newStatus, |kept|) && Below(newTime, |kept|) && Below(newReason, |kept|)
      ensures RecordsOf(kept, newStatus, newTime, newReason) == Skipping(Records(), index, |Records()|)
    {
      hide RecordsOf, Get, StatusAt, RecordAt, KeysOf;
      var keys := KeysOf(key);
      kept, newStatus, newTime, newReason := [], map[], map[], map[];
      for i := 0 to |keys|
        invariant Below(newStatus, |kept|) && Below(newTime, |kept|) && Below(newReason, |kept|)
        invariant RecordsOf(kept, newStatus, newTime, newReason) == Skipping(Records(), index, i)
      {
        if i == index {
          continue;
        }
        assert Skipping(Records(), index, i + 1) == Skipping(Records(), index, i) + [Records()[i]];
        var s, t, r := CopyEntries(i, |kept|, newStatus, newTime, newReason);
        RecordsAppend(kept, keys[i], newStatus, newTime, newReason, s, t, r);
        BelowExtends(newStatus, s, |kept|);
        BelowExtends(newTime, t, |kept|);
        BelowExtends(newReason, r, |kept|);
        kept, newStatus, newTime, newReason := kept + [keys[i]], s, t, r;
      }
    }

    /** The loop of delete_disabled_keys: copies every key that is not auto-disabled. */
    method CopySurvivors()
      returns (kept: seq<string>, newStatus: map<int, int>, newTime: map<int, int>, newReason: map<int, string>,
               deleted: nat)
      requires Valid()
      ensures Below(newStatus, |kept|) && Below(newTime, |kept|) && Below(newReason, |kept|)
      ensures RecordsOf(kept, newStatus, newTime, newReason) == Survivors(Records())
      ensures deleted == |Records()| - |kept|
    {
      hide RecordsOf, Get, KeysOf;
      var keys := KeysOf(key);
      kept, newStatus, newTime, newReason, deleted := [], map[], map[], map[], 0;
      for i := 0 to |keys|
        invariant |kept| == i - deleted
        invariant Below(newStatus, |kept|) && Below(newTime, |kept|) && Below(newReason, |kept|)
        invariant RecordsOf(kept, newStatus, newTime, newReason) == Survivors(Records()[..i])
      {
        assert Records()[..i + 1][..i] == Records()[..i];
        if StatusAt(status, i) == AUTO_DISABLED {
          deleted := deleted + 1;
        } else {
          var s, t, r := CopyEntriesIfDisabled(i, |kept|, newStatus, newTime, newReason);
          RecordsAppend(kept, keys[i], newStatus, newTime, newReason, s, t, r);
          BelowExtends(newStatus, s, |kept|);
          BelowExtends(newTime, t, |kept|);
          BelowExtends(newReason, r, |kept|);
          kept, newStatus, newTime, newReason := kept + [keys[i]], s, t, r;
        }
      }
      assert Records()[..|keys|] == Records();
    }

    /** Stores rebuilt maps and the keys they belong to. */
    method Replace(kept: seq<string>, newStatus: map<int, int>, newTime: map<int, int>, newReason: map<int, string>)
      requires Valid() && Below(newStatus, |kept|) && Below(newTime, |kept|) && Below(newReason, |kept|)
      modifies this
      ensures Valid() && channelStatus == old(channelStatus)
      ensures Records() == Written(KeysOf(old(key)), RecordsOf(kept, newStatus, newTime, newReason))
      ensures Tidy() <==> !Strands(RecordsOf(kept, newStatus, newTime, newReason), size)
    {
      hide KeysOf, Join;
      ghost var written := RecordsOf(kept, newStatus, newTime, newReason);
      assert Keys(written) == kept;
      status, time, reason := newStatus, newTime, newReason;
      Update(Join(kept, '\n'));
      assert Records() == Overlay(KeysOf(key), written);
      TidyIff(kept, newStatus, newTime, newReason, size);
    }

    method Delete(index: int) returns (outcome: Outcome)
      requires Valid()
      modifies this
      ensures Valid() && Records() == Apply(old(Records()), DeleteKey(index))
      ensures channelStatus == old(channelStatus)
      ensures Tidy() == TidyAfter(old(Tidy()), old(Records()), DeleteKey(index))
      ensures outcome == if !(0 <= index < |old(Records())|) then OutOfRange
                         else if |old(Records())| == 1 then LastKey else Done(1)
    {
      hide KeysOf, Written;
      if index < 0 || index >= size {
        return OutOfRange;
      }
      var kept, newStatus, newTime, newReason := CopyWithout(index);
      assert |kept| == |RecordsOf(kept, newStatus, newTime, newReason)| == size - 1;
      if |kept| == 0 {
        return LastKey;
      }
      assert Keys(Records()) == KeysOf(key);
      Replace(kept, newStatus, newTime, newReason);
      return Done(1);
    }

    method DeleteAutoDisabled() returns (outcome: Outcome)
      requires Valid()
      modifies this
      ensures Valid() && Records() == Apply(old(Records()), DeleteDisabled)
      ensures channelStatus == old(channelStatus)
      ensures Tidy() == TidyAfter(old(Tidy()), old(Records()), DeleteDisabled)
      ensures var deleted := |old(Records())| - |Survivors(old(Records()))|;
              outcome == if deleted == 0 then NothingToDo else Done(deleted)
    {
      hide KeysOf, Written;
      var kept, newStatus, newTime, newReason, deleted := CopySurvivors();
      assert |kept| == |RecordsOf(kept, newStatus, newTime, newReason)|;
      if deleted == 0 {
        return NothingToDo;
      }
      assert Keys(Records()) == KeysOf(key);
      Replace(kept, newStatus, newTime, newReason);
      return Done(deleted);
    }

    /** One ManageMultiKeys request: the records it leaves and the answer it gives. */
    method Manage(action: Action) returns (outcome: Outcome)
      requires Valid()
      modifies this
      ensures Valid() && Current() == old(Current()).(records := Apply(old(Records()), action))
      ensures Tidy() == TidyAfter(old(Tidy()), old(Records()), action)
      ensures outcome == Answer(old(Records()), |old(status)|, action)
    {
      hide KeysOf, Apply, Survivors, CountEnabled, Strands;
      match action
      case DisableKey(i) => outcome := Disable(i);
      case EnableKey(i) => outcome := Enable(i);
      case EnableAll => outcome := EnableAllKeys();
      case DisableAll => outcome := DisableAllKeys();
      case DeleteKey(i) => outcome := Delete(i);
      case DeleteDisabled => outcome := DeleteAutoDisabled();
    }

    /** The first position of a key, or the number of keys. */
    method FindKey(usingKey: string) returns (index: nat)
      requires Valid()
      ensures index == FirstWithKey(Records(), usingKey)
    {
      hide KeysOf;
      var keys := KeysOf(key);
      index := 0;
      while index < |keys| && keys[index] != usingKey
        invariant 0 <= index <= |keys|
        invariant forall i :: 0 <= i < index ==> keys[i] != usingKey
      {
        index := index + 1;
      }
      FirstIs(Records(), usingKey, index);
    }

    /** hasEnabledMultiKey */
    method HasEnabledKey() returns (some: bool)
      requires Valid()
      ensures some == SomeEnabled(Records())
    {
      hide KeysOf;
      for i := 0 to size
        invariant forall k :: 0 <= k < i ==> Records()[k].status != ENABLED
      {
        if i !in status || status[i] == ENABLED {
          assert Records()[i].status == ENABLED;
          return true;
        }
      }
      return false;
    }

    /** The entries of one position after a report.  Enabling deletes only the status entry. */
    method SetEntries(index: nat, newStatus: int, why: string, now: int)
      requires Valid() && index < size
      modifies this
      ensures Valid() && channelStatus == old(channelStatus) && key == old(key)
      ensures Records() == old(Records())[index := Recorded(old(Records())[index], newStatus, why, now)]
      ensures Tidy() == old(Tidy())
    {
      hide KeysOf;
      if newStatus == ENABLED {
        status := status - {index};
      } else {
        BelowChanged(time, index, now, size);
        BelowChanged(reason, index, why, size);
        status := status[index := newStatus];
        reason := reason[index := why];
        time := time[index := now];
      }
    }

    /** handlerMultiKeyUpdate */
    method HandleKeyUpdate(usingKey: string, newStatus: int, why: string, now: int)
      requires Valid()
      modifies this
      ensures Valid() && Current() == Handled(old(Current()), usingKey, newStatus, why, now)
      ensures Tidy() == old(Tidy())
    {
      hide KeysOf, SomeEnabled, Recorded, RecordsOf;
      if size == 0 {
        channelStatus := newStatus;
        return;
      }
      var index := FindKey(usingKey);
      if index == size {
        if usingKey == "" {
          channelStatus := newStatus;
        }
        return;
      }
      SetEntries(index, newStatus, why, now);
      var some := HasEnabledKey();
      if !some {
        channelStatus := AUTO_DISABLED;
      } else if newStatus == ENABLED {
        channelStatus := ENABLED;
      }
    }

    /** UpdateChannelStatus on the stored channel. */
    method UpdateStatus(usingKey: string, newStatus: int, why: string, now: int) returns (changed: bool)
      requires Valid()
      modifies this
      ensures Valid() && Current() == Reported(old(Current()), usingKey, newStatus, why, now)
      ensures changed <==> old(channelStatus) != newStatus
      ensures Tidy() == old(Tidy())
    {
      hide KeysOf;
      if channelStatus == newStatus {
        return false;
      }
      HandleKeyUpdate(usingKey, newStatus, why, now);
      return true;
    }
  }

  /** The answer to a request; enabling all keys counts the status entries. */
  function Answer(records: seq<KeyRecord>, statuses: nat, action: Action): Outcome {
    match action
    case DisableKey(i) => if 0 <= i < |records| then Done(1) else OutOfRange
    case EnableKey(i) => if 0 <= i < |records| then Done(1) else OutOfRange
    case EnableAll => Done(statuses)
    case DisableAll => if CountEnabled(records) == 0 then NothingToDo else Done(CountEnabled(records))
    case DeleteKey(i) =>
      if !(0 <= i < |records|) then OutOfRange else if |records| == 1 then LastKey else Done(1)
    case DeleteDisabled =>
      var deleted := |records| - |Survivors(records)|;
      if deleted == 0 then NothingToDo else Done(deleted)
  }

  /** Each request names its own reason for doing nothing, and the deletion of a key checks the index first. */
  lemma AnswerMeans(records: seq<KeyRecord>, statuses: nat, i: int)
    ensures !(0 <= i < |records|) ==>
              forall action | action in {DisableKey(i), EnableKey(i), DeleteKey(i)} ::
                Answer(records, statuses, action) == OutOfRange
    ensures 0 <= i < |records| ==>
              && Answer(records, statuses, DisableKey(i)) == Answer(records, statuses, EnableKey(i)) == Done(1)
              && Answer(records, statuses, DeleteKey(i)) == if |records| == 1 then LastKey else Done(1)
    ensures Answer(records, statuses, EnableAll) == Done(statuses)
    ensures Answer(records, statuses, DisableAll) == NothingToDo <==>
              forall k | 0 <= k < |records| :: records[k].status != 1
    ensures Answer(records, statuses, DeleteDisabled) == NothingToDo <==>
              forall k | 0 <= k < |records| :: records[k].status != 3
  {
    CountEnabledZero(records);
    AllSurvive(records);
  }

  lemma {:induction false} CountEnabledZero(records: seq<KeyRecord>)
    ensures CountEnabled(records) == 0 <==> forall k | 0 <= k < |records| :: records[k].status != ENABLED
  {
    if records != [] {
      CountEnabledZero(records[..|records| - 1]);
    }
  }

  lemma {:induction false} AllSurvive(records: seq<KeyRecord>)
    ensures |Survivors(records)| == |records| <==> forall k | 0 <= k < |records| :: records[k].status != AUTO_DISABLED
  {
    hide Cleaned, CleanRecord;
    if records != [] {
      var front, last := records[..|records| - 1], records[|records| - 1];
      AllSurvive(front);
      assert records == front + [last] && |Survivors(front)| <= |front|;
    }
  }

  // ---------------------------------------------------------------- appending keys

  /** The trimmed, non-blank, new keys in order of first appearance. */
  function NewKeys(existing: seq<string>, newKeys: seq<string>): seq<string> {
    Without(Normalize(newKeys), Names(Trimmed(existing)))
  }

  lemma {:induction false} TrimmedMember(xs: seq<string>, x: string)
    ensures x in Trimmed(xs) <==> x != "" && exists i :: 0 <= i < |xs| && TrimSpace(xs[i]) == x
  {
    if xs != [] {
      TrimmedMember(xs[1..], x);
      assert forall i :: 0 < i < |xs| ==> xs[i] == xs[1..][i - 1];
      hide TrimSpace;
      if x in Trimmed(xs[1..]) {
        var i :| 0 <= i < |xs| - 1 && TrimSpace(xs[1..][i]) == x;
        assert TrimSpace(xs[i + 1]) == x;
      }
    }
  }

  /** The appended keys are exactly the trimmed, non-blank new keys that are not there yet, each once and in order. */
  lemma NewKeysAre(existing: seq<string>, newKeys: seq<string>, x: string)
    ensures x in NewKeys(existing, newKeys) <==>
              && x != "" && (exists i :: 0 <= i < |newKeys| && TrimSpace(newKeys[i]) == x)
              && !exists i :: 0 <= i < |existing| && TrimSpace(existing[i]) == x
    ensures NoDuplicates(NewKeys(existing, newKeys))
    ensures Subsequence(NewKeys(existing, newKeys), Normalize(newKeys))
  {
    hide TrimSpace;
    TrimmedMember(newKeys, x);
    TrimmedMember(existing, x);
    OnlyKeepsOrder(Normalize(newKeys), Names(Normalize(newKeys)) - Names(Trimmed(existing)));
  }

  method SeenKeys(existing: seq<string>) returns (seen: set<string>)
    ensures seen == Names(Trimmed(existing))
  {
    hide *;
    seen := {};
    NoKeys(existing, {});
    for k := 0 to |existing|
      invariant seen == Names(Trimmed(existing[..k]))
    {
      SeeStep(existing[..k], existing[k]);
      assert existing[..k + 1] == existing[..k] + [existing[k]];
      var normalized := TrimSpace(existing[k]);
      if normalized == "" {
        continue;
      }
      seen := seen + {normalized};
    }
    assert existing[..|existing|] == existing;
  }

  lemma NoKeys(keys: seq<string>, known: set<string>)
    ensures Trimmed(keys[..0]) == [] && Names(Trimmed(keys[..0])) == {}
    ensures Without(Normalize(keys[..0]), known) == [] && known + Names(Normalize(keys[..0])) == known
  {
    assert keys[..0] == [];
  }

  /** One more existing key. */
  lemma SeeStep(xs: seq<string>, x: string)
    ensures Names(Trimmed(xs + [x])) ==
            if TrimSpace(x) == "" then Names(Trimmed(xs)) else Names(Trimmed(xs)) + {TrimSpace(x)}
  {
    TrimmedSnoc(xs, x);
    hide Trimmed, TrimSpace;
    assert Trimmed(xs) + [] == Trimmed(xs);
  }

  method DedupKeys(known: set<string>, newKeys: seq<string>) returns (deduped: seq<string>)
    ensures deduped == Without(Normalize(newKeys), known)
  {
    var seen := known;
    deduped := [];
    hide *;
    NoKeys(newKeys, known);
    for k := 0 to |newKeys|
      invariant deduped == Without(Normalize(newKeys[..k]), known)
      invariant seen == known + Names(Normalize(newKeys[..k]))
    {
      DedupStep(newKeys[..k], newKeys[k], known);
      assert newKeys[..k + 1] == newKeys[..k] + [newKeys[k]];
      var normalized := TrimSpace(newKeys[k]);
      if normalized == "" {
        continue;
      }
      if normalized in seen {
        continue;
      }
      seen := seen + {normalized};
      deduped := deduped + [normalized];
    }
    assert newKeys[..|newKeys|] == newKeys;
  }

  /** The append block of UpdateChannel: keeps the existing keys and adds the ones not seen yet. */
  method AppendKeys(existing: seq<string>, newKeys: seq<string>) returns (allKeys: seq<string>)
    ensures allKeys == existing + NewKeys(existing, newKeys)
  {
    var seen := SeenKeys(existing);
    var deduped := DedupKeys(seen, newKeys);
    allKeys := existing + deduped;
  }

  lemma TrimmedSnoc(xs: seq<string>, x: string)
    ensures Trimmed(xs + [x]) == Trimmed(xs) + (if TrimSpace(x) == "" then [] else [TrimSpace(x)])
  {
    TrimmedConcat(xs, [x]);
    assert [x][1..] == [];
  }

  /** One more key changes the normalized list only when it is not blank and not there yet. */
  lemma NormalizeSnoc(xs: seq<string>, x: string)
    ensures var t := TrimSpace(x); var before := Normalize(xs);
            Normalize(xs + [x]) == if t == "" || t in before then before else before + [t]
  {
    hide Uniq, Trimmed, TrimSpace, Clean;
    TrimmedSnoc(xs, x);
    if TrimSpace(x) == "" {
      assert Trimmed(xs) + [] == Trimmed(xs);
    } else {
      UniqSnoc(Trimmed(xs), TrimSpace(x));
    }
  }

  lemma DedupStep(xs: seq<string>, x: string, known: set<string>)
    ensures var t := TrimSpace(x); var before, after := Normalize(xs), Normalize(xs + [x]);
            if t == "" || t in known + Names(before)
            then known + Names(after) == known + Names(before) && Without(after, known) == Without(before, known)
            else && known + Names(after) == known + Names(before) + {t}
                 && Without(after, known) == Without(before, known) + [t]
  {
    hide Normalize, TrimSpace, Without;
    NormalizeSnoc(xs, x);
    WithoutExtend(Normalize(xs), TrimSpace(x), known);
  }

  /** Appending the same keys a second time adds nothing. */
  lemma AppendingAgainAddsNothing(existing: seq<string>, newKeys: seq<string>)
    ensures NewKeys(existing + NewKeys(existing, newKeys), newKeys) == []
  {
    var added := NewKeys(existing, newKeys);
    TrimmedConcat(existing, added);
    TrimmedFixed(added);
    var names, known := Normalize(newKeys), Names(Trimmed(existing + added));
    OnlyNone(names, Names(names) - known);
  }
}
