/**
 * The price-difference report (controller/ratio_sync.go): local prices are compared with the
 * prices of several upstream channels, and two pruning passes keep what an operator must see.
 *
 * `Differences` says what the report is. `BuildDifferences` computes it with the nested loops of
 * the source, in any iteration order of its maps. The lemmas at the end say what an entry of the
 * report means in terms of the prices alone.
 */
module RatioSync {
  import opened Common

  /** A decoded JSON value or a local setting. float64 is taken as a real number. */
  datatype Value = Null | Float(x: real) | Int(n: int) | Str(s: string) | Bool(b: bool)

  type Table = map<string, Value>
  type Data = map<string, Table>

  datatype Channel = Channel(name: string, data: Data)

  /** dto.DifferenceItem */
  datatype Item = Item(current: Value, upstreams: map<string, Value>, confidence: map<string, bool>)

  type Items = map<string, Item>
  type Report = map<string, Items>

  const EPSILON: real := 0.000000001
  const SAME := Str("same")
  const MODEL_RATIO := "model_ratio"
  const COMPLETION_RATIO := "completion_ratio"

  function NumericFields(): seq<string> {
    [MODEL_RATIO, COMPLETION_RATIO, "cache_ratio", "create_cache_ratio", "image_ratio", "audio_ratio",
     "audio_completion_ratio", "model_price"]
  }

  function Fields(): seq<string> {
    NumericFields() + ["billing_mode", "billing_expr"]
  }

  predicate NearlyEqual(a: real, b: real) {
    if a > b then a - b < EPSILON else b - a < EPSILON
  }

  predicate ValuesEqual(a: Value, b: Value) {
    if a.Float? && b.Float? then NearlyEqual(a.x, b.x) else a == b
  }

  function AsFloat(v: Value): Option<real> {
    match v
    case Float(x) => Some(x)
    case Int(n) => Some(n as real)
    case _ => None
  }

  function NormalizeSyncValue(field: string, v: Value): Value {
    if field in NumericFields() && AsFloat(v).Some? then Float(AsFloat(v).value) else v
  }

  function ValueMap(data: Data, field: string): Table {
    if field in data then data[field] else map[]
  }

  // ---------------------------------------------------------------------------------------------
  // What the report is
  // ---------------------------------------------------------------------------------------------

  /** The value the data holds for a model and a field. */
  function Supplied(data: Data, m: string, f: string): Option<Value> {
    if m in ValueMap(data, f) then Some(NormalizeSyncValue(f, ValueMap(data, f)[m])) else None
  }

  /** The local value; nil when there is none. */
  function Local(local: Data, m: string, f: string): Value {
    match Supplied(local, m, f)
    case None => Null
    case Some(v) => v
  }

  /** The channel supplies a value, and it is not the local one. */
  predicate Differs(local: Data, c: Channel, m: string, f: string) {
    var up := Supplied(c.data, m, f);
    up.Some? && !ValuesEqual(Local(local, m, f), up.value)
  }

  /** What an entry shows for the channel: its own value, "same", or nil when only the local side has one. */
  function Mark(local: Data, c: Channel, m: string, f: string): Value {
    var up := Supplied(c.data, m, f);
    if Differs(local, c, m, f) then up.value
    else if up.Some? || Local(local, m, f) == Null then SAME
    else Null
  }

  /** The channel does not send the placeholder pair 37.5 and 1 for the model. */
  predicate Trusted(c: Channel, m: string) {
    var ratios, completions := ValueMap(c.data, MODEL_RATIO), ValueMap(c.data, COMPLETION_RATIO);
    m in ratios && m in completions ==>
      var a, b := AsFloat(ratios[m]), AsFloat(completions[m]);
      a.Some? && b.Some? ==> !(NearlyEqual(a.value, 37.5) && NearlyEqual(b.value, 1.0))
  }

  function Names(channels: seq<Channel>): set<string> {
    set i | 0 <= i < |channels| :: channels[i].name
  }

  /** The last channel of a name: later channels overwrite earlier ones in the source's maps. */
  function Last(channels: seq<Channel>, n: string): (c: Channel)
    requires n in Names(channels)
    ensures c in channels && c.name == n
  {
    var k := |channels| - 1;
    if channels[k].name == n then channels[k]
    else
      assert forall i | 0 <= i < |channels| && channels[i].name == n :: channels[..k][i] == channels[i];
      Last(channels[..k], n)
  }

  function DataModels(data: Data): set<string> {
    set i, m | 0 <= i < |Fields()| && m in ValueMap(data, Fields()[i]) :: m
  }

  function Models(local: Data, channels: seq<Channel>): set<string> {
    if channels == [] then DataModels(local)
    else Models(local, channels[..|channels| - 1]) + DataModels(channels[|channels| - 1].data)
  }

  predicate SomeDiffers(local: Data, channels: seq<Channel>, m: string, f: string) {
    exists c :: c in channels && Differs(local, c, m, f)
  }

  predicate SomeSupplies(channels: seq<Channel>, m: string, f: string) {
    exists c :: c in channels && Supplied(c.data, m, f).Some?
  }

  predicate Included(local: Data, channels: seq<Channel>, m: string, f: string) {
    if Local(local, m, f) != Null then SomeDiffers(local, channels, m, f) else SomeSupplies(channels, m, f)
  }

  function Upstreams(local: Data, channels: seq<Channel>, m: string, f: string): map<string, Value> {
    map n | n in Names(channels) :: Mark(local, Last(channels, n), m, f)
  }

  function Confidence(channels: seq<Channel>, m: string): map<string, bool> {
    map n | n in Names(channels) :: Trusted(Last(channels, n), m)
  }

  function Entry(local: Data, channels: seq<Channel>, m: string, f: string): Item {
    Item(Local(local, m, f), Upstreams(local, channels, m, f), Confidence(channels, m))
  }

  function Compared(local: Data, channels: seq<Channel>, m: string): Items {
    map f | f in Fields() && Included(local, channels, m, f) :: Entry(local, channels, m, f)
  }

  function FirstPass(local: Data, channels: seq<Channel>): Report {
    map m | m in Models(local, channels) && Compared(local, channels, m) != map[] :: Compared(local, channels, m)
  }

  predicate Visible(v: Value) {
    v != Null && v != SAME
  }

  predicate ShowsValue(item: Item, n: string) {
    n in item.upstreams && Visible(item.upstreams[n])
  }

  /** The channels that show a value of their own somewhere in the report. */
  function Differing(report: Report): set<string> {
    set m, f, n | m in report && f in report[m] && n in report[m][f].upstreams && ShowsValue(report[m][f], n) :: n
  }

  /** The entry without the channels that are not kept. */
  function Restrict(item: Item, keep: set<string>): Item {
    var gone := item.upstreams.Keys - keep;
    item.(upstreams := item.upstreams - gone, confidence := item.confidence - gone)
  }

  predicate AllSame(item: Item) {
    forall n :: n in item.upstreams ==> item.upstreams[n] == SAME
  }

  function PrunedItems(items: Items, keep: set<string>): Items {
    map f | f in items && !AllSame(Restrict(items[f], keep)) :: Restrict(items[f], keep)
  }

  function Pruned(report: Report, keep: set<string>): Report {
    map m | m in report && PrunedItems(report[m], keep) != map[] :: PrunedItems(report[m], keep)
  }

  function Differences(local: Data, channels: seq<Channel>): Report {
    var first := FirstPass(local, channels);
    Pruned(first, Differing(first))
  }

  // ---------------------------------------------------------------------------------------------
  // The loops of buildDifferences
  // ---------------------------------------------------------------------------------------------

  /** The keys of every priced field of one data set. */
  method CollectModels(data: Data) returns (models: set<string>)
    ensures models == DataModels(data)
  {
    hide Fields;
    models := {};
    for k := 0 to |Fields()|
      invariant models == set i, m | 0 <= i < k && m in ValueMap(data, Fields()[i]) :: m
    {
      models := models + ValueMap(data, Fields()[k]).Keys;
    }
  }

  method AllModels(local: Data, channels: seq<Channel>) returns (models: set<string>)
    ensures models == Models(local, channels)
  {
    models := CollectModels(local);
    for k := 0 to |channels|
      invariant models == Models(local, channels[..k])
    {
      var more := CollectModels(channels[k].data);
      assert channels[..k + 1][..k] == channels[..k];
      models := models + more;
    }
    assert channels[..|channels|] == channels;
  }

  /** The credibility check of one channel for one model. */
  method CheckModel(c: Channel, m: string) returns (trusted: bool)
    ensures trusted == Trusted(c, m)
  {
    hide NearlyEqual;
    trusted := true;
    var ratios, completions := ValueMap(c.data, MODEL_RATIO), ValueMap(c.data, COMPLETION_RATIO);
    if |ratios| > 0 && |completions| > 0 {
      if m in ratios && m in completions {
        var a, b := AsFloat(ratios[m]), AsFloat(completions[m]);
        if a.Some? && b.Some? && NearlyEqual(a.value, 37.5) && NearlyEqual(b.value, 1.0) {
          trusted := false;
        }
      }
    }
  }

  method CheckChannel(c: Channel, models: set<string>) returns (trust: map<string, bool>)
    ensures trust == map m | m in models :: Trusted(c, m)
  {
    hide Trusted;
    trust := map[];
    var todo := models;
    while todo != {}
      invariant todo <= models
      invariant trust.Keys == models - todo
      invariant forall m | m in trust :: trust[m] == Trusted(c, m)
      decreases |todo|
    {
      var m :| m in todo;
      todo := todo - {m};
      var trusted := CheckModel(c, m);
      trust := trust[m := trusted];
    }
  }

  /** Appending a channel makes it the last one of its name and changes no other name. */
  lemma LastOfPrefix(channels: seq<Channel>, k: nat)
    requires k < |channels|
    ensures Names(channels[..k + 1]) == Names(channels[..k]) + {channels[k].name}
    ensures forall n | n in Names(channels[..k + 1]) ::
              Last(channels[..k + 1], n) == if n == channels[k].name then channels[k] else Last(channels[..k], n)
  {
    var now, before := channels[..k + 1], channels[..k];
    assert now[..k] == before && now[k] == channels[k];
    assert forall i | 0 <= i < k :: now[i] == before[i];
    forall n | n in Names(now)
      ensures n == channels[k].name || n in Names(before)
      ensures Last(now, n) == if n == channels[k].name then channels[k] else Last(before, n)
    {
    }
  }

  method CheckChannels(channels: seq<Channel>, models: set<string>) returns (trust: map<string, map<string, bool>>)
    ensures trust == map n | n in Names(channels) :: map m | m in models :: Trusted(Last(channels, n), m)
  {
    trust := map[];
    for k := 0 to |channels|
      invariant trust == map n | n in Names(channels[..k]) :: map m | m in models :: Trusted(Last(channels[..k], n), m)
    {
      var one := CheckChannel(channels[k], models);
      LastOfPrefix(channels, k);
      trust := trust[channels[k].name := one];
    }
    assert channels[..|channels|] == channels;
  }

  /** One turn of the innermost loop. */
  method CompareChannel(localValue: Value, c: Channel, m: string, f: string, ghost local: Data)
    returns (upstream: Value, supplied: bool, differs: bool)
    requires localValue == Local(local, m, f)
    ensures upstream == Mark(local, c, m, f)
    ensures supplied == Supplied(c.data, m, f).Some?
    ensures localValue != Null ==> differs == Differs(local, c, m, f)
    ensures localValue == Null ==> differs == Visible(upstream)
  {
    hide NormalizeSyncValue, Fields;
    upstream, supplied, differs := Null, false, false;
    if m in ValueMap(c.data, f) {
      upstream := NormalizeSyncValue(f, ValueMap(c.data, f)[m]);
      supplied := true;
      if localValue != Null && !ValuesEqual(localValue, upstream) {
        differs := true;
      } else if ValuesEqual(localValue, upstream) {
        upstream := SAME;
      }
    }
    if upstream == Null && localValue == Null {
      upstream := SAME;
    }
    if localValue == Null && upstream != Null && upstream != SAME {
      differs := true;
    }
  }

  lemma NoChannels(local: Data, channels: seq<Channel>, m: string, f: string)
    ensures Names(channels[..0]) == {} && Upstreams(local, channels[..0], m, f) == map[]
    ensures !SomeSupplies(channels[..0], m, f) && !SomeDiffers(local, channels[..0], m, f)
  {
  }

  /** What one more channel adds to an entry. */
  lemma OneMoreMark(local: Data, channels: seq<Channel>, k: nat, m: string, f: string)
    requires k < |channels|
    ensures Names(channels[..k + 1]) == Names(channels[..k]) + {channels[k].name}
    ensures Upstreams(local, channels[..k + 1], m, f)
            == Upstreams(local, channels[..k], m, f)[channels[k].name := Mark(local, channels[k], m, f)]
  {
    hide Mark, Names;
    LastOfPrefix(channels, k);
    var now, before := channels[..k + 1], channels[..k];
    var expected := Upstreams(local, before, m, f)[channels[k].name := Mark(local, channels[k], m, f)];
    forall n | n in Names(now)
      ensures n in expected && Mark(local, Last(now, n), m, f) == expected[n]
    {
    }
    assert Upstreams(local, now, m, f).Keys == expected.Keys;
  }

  lemma OneMore(local: Data, channels: seq<Channel>, k: nat, m: string, f: string)
    requires k < |channels|
    ensures SomeSupplies(channels[..k + 1], m, f)
            == (SomeSupplies(channels[..k], m, f) || Supplied(channels[k].data, m, f).Some?)
    ensures SomeDiffers(local, channels[..k + 1], m, f)
            == (SomeDiffers(local, channels[..k], m, f) || Differs(local, channels[k], m, f))
  {
  }

  /** The marks of all channels for one model and one field. */
  method CompareChannels(localValue: Value, channels: seq<Channel>, m: string, f: string, ghost local: Data)
    returns (upstreams: map<string, Value>, hasUpstream: bool, hasDifference: bool)
    requires localValue == Local(local, m, f)
    ensures upstreams == Upstreams(local, channels, m, f)
    ensures hasUpstream == SomeSupplies(channels, m, f)
    ensures localValue != Null ==> hasDifference == SomeDiffers(local, channels, m, f)
  {
    hide *;
    NoChannels(local, channels, m, f);
    upstreams, hasUpstream, hasDifference := map[], false, false;
    for k := 0 to |channels|
      invariant upstreams == Upstreams(local, channels[..k], m, f)
      invariant hasUpstream == SomeSupplies(channels[..k], m, f)
      invariant localValue != Null ==> hasDifference == SomeDiffers(local, channels[..k], m, f)
    {
      var c := channels[k];
      var upstream, supplied, differs := CompareChannel(localValue, c, m, f, local);
      OneMoreMark(local, channels, k, m, f);
      OneMore(local, channels, k, m, f);
      hasUpstream := hasUpstream || supplied;
      hasDifference := hasDifference || differs;
      upstreams := upstreams[c.name := upstream];
    }
    assert channels[..|channels|] == channels;
  }

  method CopyConfidence(channels: seq<Channel>, m: string, trust: map<string, map<string, bool>>)
    returns (confidence: map<string, bool>)
    requires forall n | n in Names(channels) :: n in trust && m in trust[n]
    ensures confidence.Keys == Names(channels)
    ensures forall n | n in confidence :: confidence[n] == trust[n][m]
  {
    confidence := map[];
    for k := 0 to |channels|
      invariant confidence.Keys == set i | 0 <= i < k :: channels[i].name
      invariant forall n | n in confidence :: n in Names(channels) && confidence[n] == trust[n][m]
    {
      var name := channels[k].name;
      assert name in Names(channels);
      confidence := confidence[name := trust[name][m]];
    }
  }

  /** One model and one field: its entry and whether the pair goes into the report. */
  method Compare(local: Data, channels: seq<Channel>, m: string, f: string, trust: map<string, map<string, bool>>)
    returns (shown: bool, item: Item)
    requires forall n | n in Names(channels) ::
               n in trust && m in trust[n] && trust[n][m] == Trusted(Last(channels, n), m)
    ensures shown == Included(local, channels, m, f)
    ensures item == Entry(local, channels, m, f)
  {
    hide NormalizeSyncValue, Trusted, Fields, Upstreams, SomeDiffers, SomeSupplies, Names, Last;
    var localValue := Null;
    if m in ValueMap(local, f) {
      localValue := NormalizeSyncValue(f, ValueMap(local, f)[m]);
    }
    var upstreams, hasUpstream, hasDifference := CompareChannels(localValue, channels, m, f, local);
    var confidence := CopyConfidence(channels, m, trust);
    assert confidence == Confidence(channels, m);
    item := Item(localValue, upstreams, confidence);
    if localValue != Null {
      shown := hasDifference;
    } else {
      shown := hasUpstream;
    }
  }

  method CompareModel(local: Data, channels: seq<Channel>, m: string, trust: map<string, map<string, bool>>)
    returns (items: Items)
    requires forall n | n in Names(channels) ::
               n in trust && m in trust[n] && trust[n][m] == Trusted(Last(channels, n), m)
    ensures items == Compared(local, channels, m)
  {
    hide Fields, Included, Entry, Trusted;
    items := map[];
    for k := 0 to |Fields()|
      invariant items == map f | f in Fields()[..k] && Included(local, channels, m, f) :: Entry(local, channels, m, f)
    {
      var shown, item := Compare(local, channels, m, Fields()[k], trust);
      assert Fields()[..k + 1] == Fields()[..k] + [Fields()[k]];
      if shown {
        items := items[Fields()[k] := item];
      }
    }
    assert Fields()[..|Fields()|] == Fields();
  }

  method CompareAll(local: Data, channels: seq<Channel>) returns (report: Report)
    ensures report == FirstPass(local, channels)
  {
    hide Trusted, Compared, Models, Names, Last;
    var models := AllModels(local, channels);
    var trust := CheckChannels(channels, models);
    report := map[];
    var todo := models;
    while todo != {}
      invariant todo <= models
      invariant forall m :: m in report <==> m in models && m !in todo && Compared(local, channels, m) != map[]
      invariant forall m | m in report :: report[m] == Compared(local, channels, m)
      decreases |todo|
    {
      var m :| m in todo;
      todo := todo - {m};
      var items := CompareModel(local, channels, m, trust);
      if items != map[] {
        report := report[m := items];
      }
    }
  }

  method FindDiffering(report: Report) returns (differing: set<string>)
    ensures differing == Differing(report)
  {
    differing := {};
    var models := report.Keys;
    while models != {}
      invariant models <= report.Keys
      invariant forall n :: n in differing <==>
                  exists m, f :: m in report && m !in models && f in report[m] && ShowsValue(report[m][f], n)
      decreases |models|
    {
      var m :| m in models;
      var found := FindInModel(report[m]);
      models := models - {m};
      differing := differing + found;
    }
  }

  method FindInModel(items: Items) returns (found: set<string>)
    ensures forall n :: n in found <==> exists f :: f in items && ShowsValue(items[f], n)
  {
    found := {};
    var fields := items.Keys;
    while fields != {}
      invariant fields <= items.Keys
      invariant forall n :: n in found <==> exists f :: f in items && f !in fields && ShowsValue(items[f], n)
      decreases |fields|
    {
      var f :| f in fields;
      fields := fields - {f};
      var names := items[f].upstreams.Keys;
      ghost var before := found;
      while names != {}
        invariant names <= items[f].upstreams.Keys
        invariant forall n :: n in found <==> n in before || (n !in names && ShowsValue(items[f], n))
        decreases |names|
      {
        var n :| n in names;
        names := names - {n};
        if items[f].upstreams[n] != Null && items[f].upstreams[n] != SAME {
          found := found + {n};
        }
      }
    }
  }

  /** Drops the channels that differ nowhere from one entry. */
  method DropAgreeing(item: Item, keep: set<string>) returns (rest: Item)
    ensures rest == Restrict(item, keep)
  {
    rest := item;
    var names := item.upstreams.Keys;
    ghost var gone: set<string> := {};
    while names != {}
      invariant names <= item.upstreams.Keys
      invariant gone == item.upstreams.Keys - names - keep
      invariant rest == item.(upstreams := item.upstreams - gone, confidence := item.confidence - gone)
      decreases |names|
    {
      var n :| n in names;
      names := names - {n};
      if n !in keep {
        rest := rest.(upstreams := rest.upstreams - {n}, confidence := rest.confidence - {n});
        RemoveOneMore(item.upstreams, gone, n);
        RemoveOneMore(item.confidence, gone, n);
        gone := gone + {n};
      }
    }
  }

  lemma RemoveOneMore<V>(m: map<string, V>, gone: set<string>, n: string)
    ensures (m - gone) - {n} == m - (gone + {n})
  {
  }

  /** The second half of the turn: is there anything left to show? */
  method CheckAllSame(item: Item) returns (drop: bool)
    ensures drop == AllSame(item)
  {
    var allSame := true;
    var names := item.upstreams.Keys;
    while names != {}
      invariant names <= item.upstreams.Keys
      invariant allSame
      invariant forall n | n in item.upstreams && n !in names :: item.upstreams[n] == SAME
      decreases |names|
    {
      var n :| n in names;
      names := names - {n};
      if item.upstreams[n] != SAME {
        allSame := false;
        break;
      }
    }
    drop := |item.upstreams| == 0 || allSame;
  }

  method PruneModel(items: Items, keep: set<string>) returns (rest: Items)
    ensures rest == PrunedItems(items, keep)
  {
    hide Restrict, AllSame;
    rest := items;
    var fields := items.Keys;
    while fields != {}
      invariant fields <= items.Keys
      invariant forall f :: f in rest <==> f in items && (f in fields || !AllSame(Restrict(items[f], keep)))
      invariant forall f | f in rest :: rest[f] == if f in fields then items[f] else Restrict(items[f], keep)
      decreases |fields|
    {
      var f :| f in fields;
      var item := DropAgreeing(items[f], keep);
      var drop := CheckAllSame(item);
      fields := fields - {f};
      if drop {
        rest := rest - {f};
      } else {
        rest := rest[f := item];
      }
    }
  }

  method Prune(report: Report, keep: set<string>) returns (rest: Report)
    ensures rest == Pruned(report, keep)
  {
    hide PrunedItems;
    rest := report;
    var models := report.Keys;
    while models != {}
      invariant models <= report.Keys
      invariant forall m :: m in rest <==> m in report && (m in models || PrunedItems(report[m], keep) != map[])
      invariant forall m | m in rest :: rest[m] == if m in models then report[m] else PrunedItems(report[m], keep)
      decreases |models|
    {
      var m :| m in models;
      var items := PruneModel(report[m], keep);
      models := models - {m};
      if items == map[] {
        rest := rest - {m};
      } else {
        rest := rest[m := items];
      }
    }
  }

  method BuildDifferences(local: Data, channels: seq<Channel>) returns (report: Report)
    ensures report == Differences(local, channels)
  {
    var first := CompareAll(local, channels);
    var differing := FindDiffering(first);
    report := Prune(first, differing);
  }

  // ---------------------------------------------------------------------------------------------
  // What the report means
  // ---------------------------------------------------------------------------------------------

  ghost predicate UniqueNames(channels: seq<Channel>) {
    forall i, j | 0 <= i < |channels| && 0 <= j < |channels| :: channels[i].name == channels[j].name ==> i == j
  }

  ghost predicate InReport(report: Report, m: string, f: string) {
    m in report && f in report[m]
  }

  /** The channel shows a value of its own for some model and field. */
  ghost predicate DiffersVisibly(local: Data, c: Channel, m: string, f: string) {
    f in Fields() && Differs(local, c, m, f) && Visible(Supplied(c.data, m, f).value)
  }

  ghost predicate DiffersSomewhere(local: Data, c: Channel) {
    exists m, f :: DiffersVisibly(local, c, m, f)
  }

  /** No channel supplies a JSON null or the literal string the report uses as its "same" mark. */
  ghost predicate Clean(channels: seq<Channel>) {
    forall c, m, f | c in channels && f in Fields() && Supplied(c.data, m, f).Some? ::
      Visible(Supplied(c.data, m, f).value)
  }

  /** The channel is the last one of its name, whose values the report shows. */
  ghost predicate Counts(channels: seq<Channel>, c: Channel) {
    c in channels && c.name in Names(channels) && Last(channels, c.name) == c
  }

  /** With unique names every channel counts. */
  lemma {:induction false} LastIsTheOne(channels: seq<Channel>, c: Channel)
    requires UniqueNames(channels) && c in channels
    ensures Counts(channels, c)
  {
  }

  lemma {:induction false} SuppliedIsModel(local: Data, channels: seq<Channel>, c: Channel, m: string, f: string)
    requires c in channels && Supplied(c.data, m, f).Some? && f in Fields()
    ensures m in Models(local, channels)
  {
    hide NormalizeSyncValue, Fields;
    var k := |channels| - 1;
    if channels[k] == c {
      var i :| 0 <= i < |Fields()| && Fields()[i] == f;
    } else {
      assert c in channels[..k];
      SuppliedIsModel(local, channels[..k], c, m, f);
    }
  }

  lemma IncludedIsModel(local: Data, channels: seq<Channel>, m: string, f: string)
    requires f in Fields() && Included(local, channels, m, f)
    ensures m in Models(local, channels)
  {
  }

  /** The first pass holds exactly the included pairs, each with its full entry. */
  lemma FirstPassIs(local: Data, channels: seq<Channel>, m: string, f: string)
    ensures InReport(FirstPass(local, channels), m, f) <==> f in Fields() && Included(local, channels, m, f)
    ensures InReport(FirstPass(local, channels), m, f) ==>
              FirstPass(local, channels)[m][f] == Entry(local, channels, m, f)
  {
    hide Fields, Entry, Included, Models;
    if f in Fields() && Included(local, channels, m, f) {
      IncludedIsModel(local, channels, m, f);
      assert f in Compared(local, channels, m);
    }
  }

  lemma EntryMarks(local: Data, channels: seq<Channel>, c: Channel, m: string, f: string)
    requires Counts(channels, c)
    ensures c.name in Entry(local, channels, m, f).upstreams
    ensures Entry(local, channels, m, f).upstreams[c.name] == Mark(local, c, m, f)
    ensures ShowsValue(Entry(local, channels, m, f), c.name) <==>
              Differs(local, c, m, f) && Visible(Supplied(c.data, m, f).value)
  {
  }

  /** The channels the second pass keeps are those that differ visibly somewhere. */
  lemma DifferingChannels(local: Data, channels: seq<Channel>, c: Channel)
    requires Counts(channels, c)
    ensures c.name in Differing(FirstPass(local, channels)) <==> DiffersSomewhere(local, c)
  {
    hide Fields, Differs, Mark, Supplied, Entry, FirstPass, ShowsValue;
    var first := FirstPass(local, channels);
    if c.name in Differing(first) {
      var m, f :| InReport(first, m, f) && ShowsValue(first[m][f], c.name);
      FirstPassIs(local, channels, m, f);
      EntryMarks(local, channels, c, m, f);
      assert DiffersVisibly(local, c, m, f);
    }
    if DiffersSomewhere(local, c) {
      var m, f :| DiffersVisibly(local, c, m, f);
      EntryMarks(local, channels, c, m, f);
      DifferenceIsIncluded(local, channels, c, m, f);
      FirstPassIs(local, channels, m, f);
      assert ShowsValue(first[m][f], c.name) && InReport(first, m, f);
      ShownIsDiffering(first, m, f, c.name);
    }
  }

  lemma ShownIsDiffering(report: Report, m: string, f: string, n: string)
    requires InReport(report, m, f) && ShowsValue(report[m][f], n)
    ensures n in Differing(report)
  {
  }

  lemma DifferenceIsIncluded(local: Data, channels: seq<Channel>, c: Channel, m: string, f: string)
    requires c in channels && Differs(local, c, m, f)
    ensures Included(local, channels, m, f)
  {
  }

  /** The pruning pass keeps an entry exactly when a kept channel is not marked "same" in it. */
  lemma PrunedIs(report: Report, keep: set<string>, m: string, f: string)
    ensures InReport(Pruned(report, keep), m, f) <==> InReport(report, m, f) && !AllSame(Restrict(report[m][f], keep))
    ensures InReport(Pruned(report, keep), m, f) ==> Pruned(report, keep)[m][f] == Restrict(report[m][f], keep)
  {
    hide AllSame, Restrict;
    if InReport(report, m, f) && !AllSame(Restrict(report[m][f], keep)) {
      assert f in PrunedItems(report[m], keep);
    }
  }

  /** A channel that differs visibly somewhere and is not marked "same" at this entry. */
  ghost predicate Speaks(local: Data, c: Channel, m: string, f: string) {
    DiffersSomewhere(local, c) && Mark(local, c, m, f) != SAME
  }

  lemma KeptIff(local: Data, channels: seq<Channel>, m: string, f: string)
    ensures !AllSame(Restrict(Entry(local, channels, m, f), Differing(FirstPass(local, channels)))) <==>
              exists c :: Counts(channels, c) && Speaks(local, c, m, f)
  {
    hide Fields, Mark, DiffersSomewhere, FirstPass, Differing;
    var entry, keep := Entry(local, channels, m, f), Differing(FirstPass(local, channels));
    forall c | Counts(channels, c)
      ensures c.name in entry.upstreams && entry.upstreams[c.name] == Mark(local, c, m, f)
      ensures c.name in keep <==> DiffersSomewhere(local, c)
    {
      EntryMarks(local, channels, c, m, f);
      DifferingChannels(local, channels, c);
    }
    var rest := Restrict(entry, keep);
    if !AllSame(rest) {
      var n :| n in rest.upstreams && rest.upstreams[n] != SAME;
      assert Counts(channels, Last(channels, n));
    }
    if c :| Counts(channels, c) && Speaks(local, c, m, f) {
      assert rest.upstreams[c.name] != SAME;
    }
  }

  /**
   * For every input: a pair is reported exactly when some channel differs there and some channel that counts
   * and differs visibly (somewhere) is not marked "same" there.
   */
  lemma ReportedIff(local: Data, channels: seq<Channel>, m: string, f: string)
    ensures InReport(Differences(local, channels), m, f) <==>
              && f in Fields()
              && SomeDiffers(local, channels, m, f)
              && exists c :: Counts(channels, c) && Speaks(local, c, m, f)
  {
    hide Fields, AllSame, Restrict, Entry, FirstPass, Differing, Pruned, DiffersSomewhere;
    var first := FirstPass(local, channels);
    FirstPassIs(local, channels, m, f);
    PrunedIs(first, Differing(first), m, f);
    KeptIff(local, channels, m, f);
    if c :| c in channels && Differs(local, c, m, f) {
      DifferenceIsIncluded(local, channels, c, m, f);
    }
  }

  /**
   * Without nulls and literal "same" values, a pair is reported when a channel that counts differs there, and only
   * when some channel does.  With unique names that is: exactly when some channel differs there.
   */
  lemma CleanReportIsExact(local: Data, channels: seq<Channel>, m: string, f: string)
    requires Clean(channels)
    ensures f in Fields() && (exists c :: Counts(channels, c) && Differs(local, c, m, f)) ==>
              InReport(Differences(local, channels), m, f)
    ensures InReport(Differences(local, channels), m, f) ==> f in Fields() && SomeDiffers(local, channels, m, f)
    ensures UniqueNames(channels) ==>
              (InReport(Differences(local, channels), m, f) <==> f in Fields() && SomeDiffers(local, channels, m, f))
  {
    hide Fields, Differences;
    ReportedIff(local, channels, m, f);
    if f in Fields() {
      if c :| Counts(channels, c) && Differs(local, c, m, f) {
        assert DiffersVisibly(local, c, m, f);
        assert Speaks(local, c, m, f);
      }
      if UniqueNames(channels) && SomeDiffers(local, channels, m, f) {
        var c :| c in channels && Differs(local, c, m, f);
        LastIsTheOne(channels, c);
      }
    }
  }

  /** No model is left with an empty entry. */
  lemma NoEmptyModel(local: Data, channels: seq<Channel>, m: string)
    requires m in Differences(local, channels)
    ensures Differences(local, channels)[m] != map[]
  {
    hide FirstPass, PrunedItems, Differing;
  }

  // ---------------------------------------------------------------------------------------------
  // One channel: what the report shows, value by value
  // ---------------------------------------------------------------------------------------------

  /** The fields that are compared. */
  lemma FieldsAre(f: string)
    ensures f in Fields() <==>
              f in {"model_ratio", "completion_ratio", "cache_ratio", "create_cache_ratio", "image_ratio",
                    "audio_ratio", "audio_completion_ratio", "model_price", "billing_mode", "billing_expr"}
    ensures f in NumericFields() <==> f in Fields() && f != "billing_mode" && f != "billing_expr"
  {
    assert Fields()[8] == "billing_mode" && Fields()[9] == "billing_expr";
    assert forall i | 0 <= i < 8 :: Fields()[i] == NumericFields()[i];
  }

  lemma NearlyEqualMeans(x: real, y: real)
    ensures NearlyEqual(x, y) <==> x - y < 0.000000001 && y - x < 0.000000001
  {
  }

  /** A supplied number is compared as a number in the numeric fields, and as it is in the others. */
  lemma SuppliedMeans(data: Data, m: string, f: string)
    requires f in data && m in data[f]
    ensures match data[f][m]
            case Float(x) => Supplied(data, m, f) == Some(Float(x))
            case Int(n) => Supplied(data, m, f) == Some(if f in NumericFields() then Float(n as real) else Int(n))
            case v => Supplied(data, m, f) == Some(v)
  {
    hide NumericFields;
  }

  lemma OneChannelReported(local: Data, c: Channel, m: string, f: string)
    requires Supplied(c.data, m, f).Some? ==> Visible(Supplied(c.data, m, f).value)
    ensures InReport(Differences(local, [c]), m, f) <==> f in Fields() && Differs(local, c, m, f)
  {
    hide Fields, Differences, Supplied, Differs;
    assert [c][0] == c && Names([c]) == {c.name};
    LastIsTheOne([c], c);
    ReportedIff(local, [c], m, f);
    if f in Fields() && Differs(local, c, m, f) {
      DifferenceIsSupplied(local, c, m, f);
      assert DiffersVisibly(local, c, m, f);
      MarkIs(local, c, m, f);
      assert Speaks(local, c, m, f);
    }
  }

  lemma DifferenceIsSupplied(local: Data, c: Channel, m: string, f: string)
    requires Differs(local, c, m, f)
    ensures Supplied(c.data, m, f).Some?
  {
  }

  /** Two numbers are reported exactly when they are 1e-9 or more apart. */
  lemma NumbersReported(local: Data, c: Channel, m: string, f: string, x: real, y: real)
    requires f in Fields() && Supplied(local, m, f) == Some(Float(x)) && Supplied(c.data, m, f) == Some(Float(y))
    ensures InReport(Differences(local, [c]), m, f) <==> x - y >= 0.000000001 || y - x >= 0.000000001
  {
    hide Fields, Differences, Supplied;
    OneChannelReported(local, c, m, f);
    NearlyEqualMeans(x, y);
  }

  /** Two strings are reported exactly when they are different, apart from the literal "same". */
  lemma StringsReported(local: Data, c: Channel, m: string, f: string, x: string, y: string)
    requires f in Fields() && Supplied(local, m, f) == Some(Str(x)) && Supplied(c.data, m, f) == Some(Str(y))
    requires y != "same"
    ensures InReport(Differences(local, [c]), m, f) <==> x != y
  {
    hide Fields, Differences, Supplied;
    OneChannelReported(local, c, m, f);
  }

  /** A value of another kind is reported, and so is any value where there is no local one. */
  lemma OtherKindsReported(local: Data, c: Channel, m: string, f: string, v: Value)
    requires f in Fields() && Supplied(c.data, m, f) == Some(v) && v != Null && v != Str("same")
    ensures Supplied(local, m, f) == None ==> InReport(Differences(local, [c]), m, f)
    ensures v.Float? && Supplied(local, m, f).Some? && !Supplied(local, m, f).value.Float? ==>
              InReport(Differences(local, [c]), m, f)
    ensures v.Str? && Supplied(local, m, f).Some? && !Supplied(local, m, f).value.Str? ==>
              InReport(Differences(local, [c]), m, f)
  {
    hide Fields, Differences, Supplied;
    OneChannelReported(local, c, m, f);
  }

  /** What the channel does not supply is not reported. */
  lemma NothingReported(local: Data, c: Channel, m: string, f: string)
    requires Supplied(c.data, m, f) == None
    ensures !InReport(Differences(local, [c]), m, f)
  {
    hide Fields, Differences, Supplied;
    OneChannelReported(local, c, m, f);
    if Differs(local, c, m, f) {
      DifferenceIsSupplied(local, c, m, f);
    }
  }

  /** A channel is distrusted for a model exactly when it sends a ratio of 37.5 and a completion ratio of 1, nearly. */
  lemma TrustedMeans(c: Channel, m: string, x: real, y: real)
    requires "model_ratio" in c.data && m in c.data["model_ratio"] && c.data["model_ratio"][m] == Float(x)
    requires "completion_ratio" in c.data && m in c.data["completion_ratio"]
    requires c.data["completion_ratio"][m] == Float(y)
    ensures !Trusted(c, m) <==>
              && x - 37.5 < 0.000000001 && 37.5 - x < 0.000000001
              && y - 1.0 < 0.000000001 && 1.0 - y < 0.000000001
  {
    NearlyEqualMeans(x, 37.5);
    NearlyEqualMeans(y, 1.0);
  }

  /** A channel that sends only one of the two is trusted. */
  lemma TrustedWithoutBoth(c: Channel, m: string)
    requires ("model_ratio" in c.data ==> m !in c.data["model_ratio"]) ||
             ("completion_ratio" in c.data ==> m !in c.data["completion_ratio"])
    ensures Trusted(c, m)
  {
  }

  /** A channel with no usable difference cannot make the report, whatever it sends. */
  lemma HiddenDifferences(local: Data, channels: seq<Channel>)
    requires forall c, m, f | c in channels && f in Fields() && Differs(local, c, m, f) ::
               !Visible(Supplied(c.data, m, f).value)
    ensures Differences(local, channels) == map[]
  {
    hide Differences, Fields, Differs, Supplied;
    var report := Differences(local, channels);
    forall m
      ensures m !in report
    {
      if m in report {
        NoEmptyModel(local, channels, m);
        var f :| f in report[m];
        ReportedIff(local, channels, m, f);
      }
    }
  }

  /** A literal "same" differs from the local value but is not reported. */
  lemma LiteralSameIsHidden()
    ensures var local := map["billing_mode" := map["m" := Str("tiered")]];
            var c := Channel("up", map["billing_mode" := map["m" := SAME]]);
            Differs(local, c, "m", "billing_mode") && Differences(local, [c]) == map[]
  {
    var local := map["billing_mode" := map["m" := Str("tiered")]];
    var c := Channel("up", map["billing_mode" := map["m" := SAME]]);
    hide Differences, Fields;
    HiddenDifferences(local, [c]);
  }

  /**
   * What a kept entry says: its channels are exactly those that differ visibly somewhere, and each is
   * marked with its own value, "same" or nil.
   */
  lemma EntryIsRight(local: Data, channels: seq<Channel>, m: string, f: string, c: Channel)
    requires Counts(channels, c)
    requires InReport(Differences(local, channels), m, f)
    ensures var item := Differences(local, channels)[m][f];
            && item.current == Local(local, m, f)
            && item.upstreams.Keys == item.confidence.Keys <= Names(channels)
            && (c.name in item.upstreams <==> DiffersSomewhere(local, c))
            && (c.name in item.upstreams ==> item.confidence[c.name] == Trusted(c, m))
            && (c.name in item.upstreams ==>
                  var v := item.upstreams[c.name];
                  if Differs(local, c, m, f) then Supplied(c.data, m, f) == Some(v)
                  else v == if Supplied(c.data, m, f) == None && item.current != Null then Null else SAME)
  {
    hide Fields, Trusted, AllSame, FirstPass, Differing, Pruned, DiffersSomewhere, Differs, Supplied, Local;
    var first := FirstPass(local, channels);
    FirstPassIs(local, channels, m, f);
    PrunedIs(first, Differing(first), m, f);
    DifferingChannels(local, channels, c);
    MarkIs(local, c, m, f);
  }

  lemma MarkIs(local: Data, c: Channel, m: string, f: string)
    ensures var v := Mark(local, c, m, f);
            if Differs(local, c, m, f) then Supplied(c.data, m, f) == Some(v)
            else v == if Supplied(c.data, m, f) == None && Local(local, m, f) != Null then Null else SAME
  {
  }

  /** Without nulls and literal "same" values every difference is a visible one. */
  lemma CleanDiffersSomewhere(local: Data, channels: seq<Channel>, c: Channel)
    requires Clean(channels) && c in channels
    ensures DiffersSomewhere(local, c) <==> exists m, f :: f in Fields() && Differs(local, c, m, f)
  {
    hide Fields;
    if m, f :| f in Fields() && Differs(local, c, m, f) {
      assert DiffersVisibly(local, c, m, f);
    }
  }

  /** What an entry shows under a name: the mark and the credibility of the channel that counts. */
  lemma EntryByName(local: Data, channels: seq<Channel>, m: string, f: string, n: string)
    requires InReport(Differences(local, channels), m, f) && n in Names(channels)
    ensures var item, c := Differences(local, channels)[m][f], Last(channels, n);
            && item.current == Local(local, m, f)
            && item.upstreams.Keys == item.confidence.Keys <= Names(channels)
            && (n in item.upstreams <==> DiffersSomewhere(local, c))
            && (n in item.upstreams ==>
                  item.upstreams[n] == Mark(local, c, m, f) && item.confidence[n] == Trusted(c, m))
  {
    hide Fields, Trusted, Mark, AllSame, FirstPass, Differing, Pruned, DiffersSomewhere, Differs, Supplied, Local;
    var first := FirstPass(local, channels);
    FirstPassIs(local, channels, m, f);
    PrunedIs(first, Differing(first), m, f);
    DifferingChannels(local, channels, Last(channels, n));
  }

  ghost predicate SameChannels(a: seq<Channel>, b: seq<Channel>) {
    forall c :: c in a <==> c in b
  }

  /** Two channels show the same: the same marks wherever some channel differs, and the same credibility. */
  ghost predicate ShowSame(local: Data, channels: seq<Channel>, c: Channel, d: Channel) {
    && (DiffersSomewhere(local, c) <==> DiffersSomewhere(local, d))
    && (DiffersSomewhere(local, c) ==>
          && (forall m, f | f in Fields() && SomeDiffers(local, channels, m, f) ::
                Mark(local, c, m, f) == Mark(local, d, m, f))
          && (forall m | m in Differences(local, channels) :: Trusted(c, m) == Trusted(d, m)))
  }

  /** For every name the channels that count show the same. */
  ghost predicate WinnersShowSame(local: Data, a: seq<Channel>, b: seq<Channel>)
    requires SameChannels(a, b)
  {
    forall n | n in Names(a) :: n in Names(b) && ShowSame(local, a, Last(a, n), Last(b, n))
  }

  lemma SameNames(a: seq<Channel>, b: seq<Channel>)
    requires SameChannels(a, b)
    ensures Names(a) == Names(b)
  {
    forall n | n in Names(a) + Names(b)
      ensures n in Names(a) && n in Names(b)
    {
      var c := if n in Names(a) then Last(a, n) else Last(b, n);
      assert c in a && c in b;
    }
  }

  /** A channel that counts and differs visibly has an entry of its own. */
  lemma VisibleIsReported(local: Data, channels: seq<Channel>, c: Channel) returns (m: string, f: string)
    requires Counts(channels, c) && DiffersSomewhere(local, c)
    ensures InReport(Differences(local, channels), m, f) && c.name in Differences(local, channels)[m][f].upstreams
  {
    hide Fields, Differences, Counts, Last;
    m, f :| DiffersVisibly(local, c, m, f);
    assert Speaks(local, c, m, f);
    assert c in channels by { CountsIsIn(channels, c); }
    ReportedIff(local, channels, m, f);
    EntryIsRight(local, channels, m, f, c);
  }

  lemma CountsIsIn(channels: seq<Channel>, c: Channel)
    requires Counts(channels, c)
    ensures c in channels && c.name in Names(channels) && Last(channels, c.name) == c
  {
  }

  lemma LastCounts(channels: seq<Channel>, n: string)
    requires n in Names(channels)
    ensures Counts(channels, Last(channels, n))
  {
  }

  /** One half: equal reports show the same under every name. */
  lemma SameReportShowsSame(local: Data, a: seq<Channel>, b: seq<Channel>, n: string)
    requires SameChannels(a, b) && n in Names(a) && n in Names(b)
    requires Differences(local, a) == Differences(local, b)
    ensures ShowSame(local, a, Last(a, n), Last(b, n))
  {
    hide Fields, Differences, Mark, Trusted, Counts, DiffersSomewhere, Last, Names;
    var c, d := Last(a, n), Last(b, n);
    LastCounts(a, n);
    LastCounts(b, n);
    if DiffersSomewhere(local, c) {
      var m, f := VisibleIsReported(local, a, c);
      EntryByName(local, b, m, f, n);
    }
    if DiffersSomewhere(local, d) {
      var m, f := VisibleIsReported(local, b, d);
      EntryByName(local, a, m, f, n);
    }
    if DiffersSomewhere(local, c) {
      forall m, f | f in Fields() && SomeDiffers(local, a, m, f)
        ensures Mark(local, c, m, f) == Mark(local, d, m, f)
      {
        SameMarkAt(local, a, b, n, m, f);
      }
      forall m | m in Differences(local, a)
        ensures Trusted(c, m) == Trusted(d, m)
      {
        NoEmptyModel(local, a, m);
        var f :| f in Differences(local, a)[m];
        EntryByName(local, a, m, f, n);
        EntryByName(local, b, m, f, n);
      }
    }
  }

  lemma SameMarkAt(local: Data, a: seq<Channel>, b: seq<Channel>, n: string, m: string, f: string)
    requires SameChannels(a, b) && n in Names(a) && n in Names(b) && f in Fields() && SomeDiffers(local, a, m, f)
    requires Differences(local, a) == Differences(local, b)
    requires DiffersSomewhere(local, Last(a, n)) && DiffersSomewhere(local, Last(b, n))
    ensures Mark(local, Last(a, n), m, f) == Mark(local, Last(b, n), m, f)
  {
    hide Fields, Differences, Mark, Counts, DiffersSomewhere, Last, Names;
    if InReport(Differences(local, a), m, f) {
      EntryByName(local, a, m, f, n);
      EntryByName(local, b, m, f, n);
    } else {
      ReportedIff(local, a, m, f);
      ReportedIff(local, b, m, f);
      LastCounts(a, n);
      LastCounts(b, n);
      assert !Speaks(local, Last(a, n), m, f);
      assert !Speaks(local, Last(b, n), m, f);
    }
  }

  /** The other half: a pair reported for one order is reported for the other. */
  lemma ShownIsReported(local: Data, a: seq<Channel>, b: seq<Channel>, m: string, f: string)
    requires SameChannels(a, b)
    requires forall n | n in Names(a) :: n in Names(b) && MarksAlike(local, a, Last(a, n), Last(b, n))
    ensures InReport(Differences(local, a), m, f) ==> InReport(Differences(local, b), m, f)
  {
    hide Fields, Differences, Mark, Counts, DiffersSomewhere, Last, Names;
    ReportedIff(local, a, m, f);
    ReportedIff(local, b, m, f);
    if InReport(Differences(local, a), m, f) {
      var c :| Counts(a, c) && Speaks(local, c, m, f);
      CountsIsIn(a, c);
      LastCounts(b, c.name);
      assert Speaks(local, Last(b, c.name), m, f);
    }
  }

  /** The part of `ShowSame` that speaks of marks. */
  ghost predicate MarksAlike(local: Data, channels: seq<Channel>, c: Channel, d: Channel) {
    && (DiffersSomewhere(local, c) <==> DiffersSomewhere(local, d))
    && (DiffersSomewhere(local, c) ==>
          forall m, f | f in Fields() && SomeDiffers(local, channels, m, f) ::
            Mark(local, c, m, f) == Mark(local, d, m, f))
  }

  lemma SameReported(local: Data, a: seq<Channel>, b: seq<Channel>, m: string, f: string)
    requires SameChannels(a, b) && WinnersShowSame(local, a, b)
    ensures InReport(Differences(local, a), m, f) <==> InReport(Differences(local, b), m, f)
  {
    hide Fields, Differences, Mark, Trusted, DiffersSomewhere, Last, Names, Differs;
    SameNames(a, b);
    assert forall m, f :: SomeDiffers(local, a, m, f) == SomeDiffers(local, b, m, f);
    ShownIsReported(local, a, b, m, f);
    ShownIsReported(local, b, a, m, f);
  }

  lemma SameEntry(local: Data, a: seq<Channel>, b: seq<Channel>, m: string, f: string)
    requires SameChannels(a, b) && WinnersShowSame(local, a, b)
    requires InReport(Differences(local, a), m, f) && InReport(Differences(local, b), m, f)
    ensures Differences(local, a)[m][f] == Differences(local, b)[m][f]
  {
    hide Differences, Mark, Trusted, DiffersSomewhere, Last, Names, Differs, Fields;
    SameNames(a, b);
    ReportedIff(local, a, m, f);
    var x, y := Differences(local, a)[m][f], Differences(local, b)[m][f];
    EntryKeys(local, a, m, f);
    EntryKeys(local, b, m, f);
    forall n | n in Names(a)
      ensures n in x.upstreams <==> n in y.upstreams
      ensures n in x.upstreams ==> x.upstreams[n] == y.upstreams[n] && x.confidence[n] == y.confidence[n]
    {
      EntryByName(local, a, m, f, n);
      EntryByName(local, b, m, f, n);
    }
    assert x.upstreams == y.upstreams && x.confidence == y.confidence;
  }

  lemma EntryKeys(local: Data, channels: seq<Channel>, m: string, f: string)
    requires InReport(Differences(local, channels), m, f)
    ensures var item := Differences(local, channels)[m][f];
            item.current == Local(local, m, f) && item.upstreams.Keys == item.confidence.Keys <= Names(channels)
  {
    hide Fields, Trusted, Mark, AllSame, FirstPass, Differing, Pruned, Local;
    var first := FirstPass(local, channels);
    FirstPassIs(local, channels, m, f);
    PrunedIs(first, Differing(first), m, f);
  }

  /**
   * The channels answer in any order.  Two orders of the same channels give the same report if and only if for every
   * name the channels that answer last show the same.
   */
  lemma OrderMattersIff(local: Data, a: seq<Channel>, b: seq<Channel>)
    requires SameChannels(a, b)
    ensures Differences(local, a) == Differences(local, b) <==> WinnersShowSame(local, a, b)
  {
    hide Differences, ShowSame, Names, Last, Fields;
    SameNames(a, b);
    if Differences(local, a) == Differences(local, b) {
      forall n | n in Names(a)
        ensures ShowSame(local, a, Last(a, n), Last(b, n))
      {
        SameReportShowsSame(local, a, b, n);
      }
    }
    if WinnersShowSame(local, a, b) {
      var x, y := Differences(local, a), Differences(local, b);
      forall m | m in x || m in y
        ensures m in x && m in y && x[m] == y[m]
      {
        forall f
          ensures InReport(x, m, f) <==> InReport(y, m, f)
          ensures InReport(x, m, f) ==> x[m][f] == y[m][f]
        {
          SameReported(local, a, b, m, f);
          if InReport(x, m, f) {
            SameEntry(local, a, b, m, f);
          }
        }
        if m in x {
          NoEmptyModel(local, a, m);
          SameItems(x, y, m);
        } else {
          NoEmptyModel(local, b, m);
          SameItems(y, x, m);
        }
      }
    }
  }

  /** The model is in both reports, with the same entries. */
  lemma SameItems(x: Report, y: Report, m: string)
    requires m in x && x[m] != map[]
    requires forall f | InReport(x, m, f) :: InReport(y, m, f) && x[m][f] == y[m][f]
    requires forall f | InReport(y, m, f) :: InReport(x, m, f)
    ensures m in y && x[m] == y[m]
  {
    var f :| f in x[m];
    assert InReport(x, m, f);
    forall f | f in x[m] || f in y[m]
      ensures f in x[m] && f in y[m] && x[m][f] == y[m][f]
    {
      assert InReport(x, m, f) <==> InReport(y, m, f);
    }
  }

  /** The same channels, and for each name the same one counts. */
  ghost predicate SameWinners(a: seq<Channel>, b: seq<Channel>) {
    && SameChannels(a, b)
    && forall c | c in a :: Counts(a, c) <==> Counts(b, c)
  }

  lemma UniqueNamesSameWinners(a: seq<Channel>, b: seq<Channel>)
    requires UniqueNames(a) && UniqueNames(b) && SameChannels(a, b)
    ensures SameWinners(a, b)
  {
    forall c | c in a
      ensures Counts(a, c) && Counts(b, c)
    {
      LastIsTheOne(a, c);
      LastIsTheOne(b, c);
    }
  }

  lemma SameLast(a: seq<Channel>, b: seq<Channel>, n: string)
    requires SameWinners(a, b) && n in Names(a)
    ensures n in Names(b) && Last(a, n) == Last(b, n)
  {
    assert Counts(a, Last(a, n));
  }

  /** In particular when the same channel of each name answers last. */
  lemma OrderOfChannelsIsIrrelevant(local: Data, a: seq<Channel>, b: seq<Channel>)
    requires SameWinners(a, b)
    ensures Differences(local, a) == Differences(local, b)
  {
    hide Differences, Names, Last, Counts, Fields, Mark, Trusted, DiffersSomewhere, SomeDiffers;
    forall n | n in Names(a)
      ensures n in Names(b) && ShowSame(local, a, Last(a, n), Last(b, n))
    {
      SameLast(a, b, n);
    }
    OrderMattersIff(local, a, b);
  }

  function Priced(name: string, price: real): Channel {
    Channel(name, map["model_price" := map["m" := Float(price)]])
  }

  /** Two channels of one name: the report shows the price of the one that answers last. */
  lemma LastAnswerShows(first: Channel, price: real)
    requires first.name == "up"
    ensures var report := Differences(map[], [first, Priced("up", price)]);
            && InReport(report, "m", "model_price") && "up" in report["m"]["model_price"].upstreams
            && report["m"]["model_price"].upstreams["up"] == Float(price)
  {
    var c := Priced("up", price);
    var channels := [first, c];
    assert channels[1] == c;
    assert Counts(channels, c);
    assert "model_price" in Fields() by { assert Fields()[7] == "model_price"; }
    assert Supplied(c.data, "m", "model_price") == Some(Float(price));
    assert DiffersVisibly(map[], c, "m", "model_price");
    assert Speaks(map[], c, "m", "model_price");
    hide Differences, Counts, Fields, Speaks, Supplied;
    ReportedIff(map[], channels, "m", "model_price");
    EntryIsRight(map[], channels, "m", "model_price", c);
  }

  /** So with equal names the order of the answers matters. */
  lemma EqualNamesDependOnOrder()
    ensures var a, b := Priced("up", 2.0), Priced("up", 3.0);
            Differences(map[], [a, b]) != Differences(map[], [b, a])
  {
    var a, b := Priced("up", 2.0), Priced("up", 3.0);
    LastAnswerShows(a, 3.0);
    LastAnswerShows(b, 2.0);
    hide Differences;
  }
}
