/**
 * Choosing one price per model from the models.dev catalogue (controller/ratio_sync.go, 811-944):
 * a fold over the providers in name order, with a comparison of prices that is not transitive.
 */
module ModelsDev {
  import opened Common
  import opened Text
  import RatioSync

  /** float64 with its special values. */
  datatype Float = NaN | Infinite(negative: bool) | Finite(x: real)

  datatype Cost = Cost(input: Option<Float>, output: Option<Float>, cacheRead: Option<Float>)

  datatype Candidate = Candidate(provider: string, input: real, output: Option<real>, cacheRead: Option<real>)

  type Catalogue = map<string, map<string, Cost>>

  const EPSILON := RatioSync.EPSILON

  predicate IsValidNonNegativeCost(v: Float) {
    v.Finite? && v.x >= 0.0
  }

  /** The candidate a provider's price gives, if it can be turned into a local ratio at all. */
  function BuildCandidate(provider: string, cost: Cost): (r: Option<Candidate>)
    ensures r.Some? ==>
              r.value.provider == provider && cost.input == Some(Finite(r.value.input)) && r.value.input >= 0.0
    ensures r.Some? && r.value.input == 0.0 ==> r.value.output in {None, Some(0.0)}
    ensures r.Some? ==> cost.output == (if r.value.output.None? then None else Some(Finite(r.value.output.value)))
    ensures r.Some? ==>
              r.value.cacheRead ==
              match cost.cacheRead
              case Some(Finite(x)) => (if x >= 0.0 then Some(x) else None)
              case _ => None
    ensures r.None? <==>
              || cost.input.None? || !cost.input.value.Finite? || cost.input.value.x < 0.0
              || (cost.output.Some? && (!cost.output.value.Finite? || cost.output.value.x < 0.0))
              || (cost.input.value.x == 0.0 && cost.output.Some? && cost.output.value.x != 0.0)
  {
    if cost.input.None? || !IsValidNonNegativeCost(cost.input.value) then None
    else if cost.output.Some? && !IsValidNonNegativeCost(cost.output.value) then None
    else
      var input := cost.input.value.x;
      var output := if cost.output.Some? then Some(cost.output.value.x) else None;
      if input == 0.0 && output.Some? && output.value > 0.0 then None
      else
        var cacheRead := if cost.cacheRead.Some? && IsValidNonNegativeCost(cost.cacheRead.value)
                         then Some(cost.cacheRead.value.x) else None;
        Some(Candidate(provider, input, output, cacheRead))
  }

  predicate ShouldReplace(current: Candidate, next: Candidate) {
    var currentNonZero, nextNonZero := current.input > 0.0, next.input > 0.0;
    if currentNonZero != nextNonZero then nextNonZero
    else if nextNonZero && !RatioSync.NearlyEqual(next.input, current.input) then next.input < current.input
    else Less(next.provider, current.provider)
  }

  // ---------------------------------------------------------------------------------------------
  // The fold for one model
  // ---------------------------------------------------------------------------------------------

  function Select(candidates: seq<Candidate>): Option<Candidate> {
    if candidates == [] then None
    else
      var last := candidates[|candidates| - 1];
      match Select(candidates[..|candidates| - 1])
      case None => Some(last)
      case Some(current) => Some(if ShouldReplace(current, last) then last else current)
  }

  /** Valid candidates, each from a later provider than the one before. */
  ghost predicate InProviderOrder(candidates: seq<Candidate>) {
    && (forall i | 0 <= i < |candidates| :: candidates[i].input >= 0.0)
    && forall i, j | 0 <= i < j < |candidates| :: Less(candidates[i].provider, candidates[j].provider)
  }

  /**
   * What may stand at position k of the candidates: a zero price only if all are zero, and then the first;
   * otherwise a price below every non-zero price plus epsilon, and strictly below those of earlier providers.
   */
  ghost predicate GoodChoice(candidates: seq<Candidate>, k: nat) {
    && k < |candidates|
    && (candidates[k].input == 0.0 ==> k == 0 && forall c | c in candidates :: c.input == 0.0)
    && (candidates[k].input > 0.0 ==>
          && (forall c | c in candidates && c.input > 0.0 :: candidates[k].input < c.input + EPSILON)
          && (forall j | 0 <= j < k && candidates[j].input > 0.0 :: candidates[k].input < candidates[j].input))
  }

  /** The fold ends on a good choice although "nearly equal" is not transitive. */
  lemma {:induction false} SelectIsGood(candidates: seq<Candidate>) returns (k: nat)
    requires candidates != [] && InProviderOrder(candidates)
    ensures GoodChoice(candidates, k)
    ensures Select(candidates) == Some(candidates[k])
  {
    var n := |candidates| - 1;
    var rest := candidates[..n];
    if rest == [] {
      k := 0;
    } else {
      k := SelectIsGood(rest);
      assert candidates[k] == rest[k];
      assert Less(candidates[k].provider, candidates[n].provider);
      LessTotal(candidates[k].provider, candidates[n].provider);
      GoodStep(candidates, k);
      if ShouldReplace(candidates[k], candidates[n]) {
        k := n;
      }
    }
  }

  /** One more candidate, from a later provider: the replacement rule keeps the choice good. */
  lemma GoodStep(candidates: seq<Candidate>, k: nat)
    requires |candidates| > 1 && forall i | 0 <= i < |candidates| :: candidates[i].input >= 0.0
    requires GoodChoice(candidates[..|candidates| - 1], k)
    requires !Less(candidates[|candidates| - 1].provider, candidates[k].provider)
    ensures var n := |candidates| - 1;
            GoodChoice(candidates, if ShouldReplace(candidates[k], candidates[n]) then n else k)
  {
  }

  /** The first position of the smallest non-zero price. */
  ghost predicate FirstCheapest(candidates: seq<Candidate>, i: nat) {
    && i < |candidates| && candidates[i].input > 0.0
    && (forall j | 0 <= j < |candidates| && candidates[j].input > 0.0 :: candidates[i].input <= candidates[j].input)
    && (forall j | 0 <= j < i && candidates[j].input > 0.0 :: candidates[i].input < candidates[j].input)
  }

  /** The cheapest candidate meets no earlier choice, a free one, or one that is dearer by epsilon or more. */
  predicate Displaces(current: Option<Candidate>, cheapest: Candidate) {
    current.None? || current.value.input == 0.0 || current.value.input >= cheapest.input + EPSILON
  }

  lemma ChoiceBefore(candidates: seq<Candidate>, i: nat) returns (k: nat)
    requires InProviderOrder(candidates) && 0 < i <= |candidates|
    ensures k < i && Select(candidates[..i]) == Some(candidates[k])
  {
    k := SelectIsGood(candidates[..i]);
  }

  lemma KeepsChoice(current: Candidate, next: Candidate)
    requires current.input > 0.0 && next.input >= 0.0 && Less(current.provider, next.provider)
    requires next.input > 0.0 ==> next.input + EPSILON > current.input
    ensures !ShouldReplace(current, next)
  {
    LessTotal(current.provider, next.provider);
  }

  /** From the first cheapest candidate on, the choice does not change any more. */
  lemma {:induction false} SettlesAtCheapest(candidates: seq<Candidate>, i: nat, n: nat)
    requires InProviderOrder(candidates) && FirstCheapest(candidates, i) && i < n <= |candidates|
    ensures var before := Select(candidates[..i]);
            Select(candidates[..n]) == if Displaces(before, candidates[i]) then Some(candidates[i]) else before
    decreases n
  {
    hide Less;
    var before, last := Select(candidates[..i]), candidates[n - 1];
    assert candidates[..n][..n - 1] == candidates[..n - 1];
    if n - 1 == i {
      if i > 0 {
        var k := ChoiceBefore(candidates, i);
        LessTotal(candidates[k].provider, last.provider);
      }
    } else {
      SettlesAtCheapest(candidates, i, n - 1);
      if Displaces(before, candidates[i]) {
        KeepsChoice(candidates[i], last);
      } else {
        var k := ChoiceBefore(candidates, i);
        KeepsChoice(candidates[k], last);
      }
    }
  }

  /**
   The cheapest non-zero price, at its first provider, is chosen if and only if the choice among the providers
   before it is none, free, or dearer by at least epsilon.  Otherwise that earlier choice stays, which is dearer
   by less than epsilon.
   */
  lemma CheapestChosenIff(candidates: seq<Candidate>, i: nat)
    requires InProviderOrder(candidates) && FirstCheapest(candidates, i)
    ensures var before := Select(candidates[..i]);
            && (Select(candidates) == Some(candidates[i]) <==> Displaces(before, candidates[i]))
            && (!Displaces(before, candidates[i]) ==>
                  && Select(candidates) == before && before.value in candidates[..i]
                  && candidates[i].input < before.value.input < candidates[i].input + EPSILON)
  {
    SettlesAtCheapest(candidates, i, |candidates|);
    assert candidates[..|candidates|] == candidates;
    if !Displaces(Select(candidates[..i]), candidates[i]) {
      var k := ChoiceBefore(candidates, i);
      assert candidates[..i][k] in candidates[..i];
    }
  }

  lemma {:induction false} CheapestExists(candidates: seq<Candidate>) returns (i: nat)
    requires exists j :: 0 <= j < |candidates| && candidates[j].input > 0.0
    ensures FirstCheapest(candidates, i)
  {
    var n := |candidates| - 1;
    var rest, last := candidates[..n], candidates[n].input;
    assert forall j :: 0 <= j < n ==> rest[j] == candidates[j];
    if j :| 0 <= j < n && candidates[j].input > 0.0 {
      assert rest[j].input > 0.0;
      i := CheapestExists(rest);
      if 0.0 < last < candidates[i].input {
        i := n;
      }
    } else {
      i := n;
    }
  }

  /** When prices are equal or at least epsilon apart, the cheapest non-zero price is always chosen. */
  lemma SelectIsCheapest(candidates: seq<Candidate>, i: nat)
    requires InProviderOrder(candidates) && FirstCheapest(candidates, i)
    requires forall c | c in candidates && c.input > 0.0 ::
               c.input == candidates[i].input || !RatioSync.NearlyEqual(c.input, candidates[i].input)
    ensures Select(candidates) == Some(candidates[i])
  {
    if i > 0 {
      var k := ChoiceBefore(candidates, i);
      assert candidates[k] in candidates;
    }
    CheapestChosenIff(candidates, i);
  }

  function Price(provider: string, input: real): Candidate {
    Candidate(provider, input, None, None)
  }

  /** A later provider that is cheaper by less than epsilon is not chosen. */
  lemma CheapestMayLose()
    ensures var a, b := Price("a", 1.0), Price("b", 1.0 - EPSILON / 2.0);
            InProviderOrder([a, b]) && Select([a, b]) == Some(a) && b.input < a.input
  {
    var a, b := Price("a", 1.0), Price("b", 1.0 - EPSILON / 2.0);
    assert [a, b][..1] == [a];
    assert Select([a]) == Some(a);
    assert !ShouldReplace(a, b);
  }

  /** In descending provider order the tie-breaker climbs: the result can lie more than epsilon above the cheapest. */
  lemma UnsortedProvidersDrift()
    ensures var c, b, a := Price("c", 1.0), Price("b", 1.0 + 0.9 * EPSILON), Price("a", 1.0 + 1.8 * EPSILON);
            Select([c, b, a]) == Some(a) && a.input > c.input + EPSILON
  {
    var c, b, a := Price("c", 1.0), Price("b", 1.0 + 0.9 * EPSILON), Price("a", 1.0 + 1.8 * EPSILON);
    assert [c, b, a][..2] == [c, b] && [c, b][..1] == [c];
    assert Select([c]) == Some(c);
    assert ShouldReplace(c, b) && ShouldReplace(b, a);
    assert Select([c, b]) == Some(b);
  }

  // ---------------------------------------------------------------------------------------------
  // The loops over providers and models
  // ---------------------------------------------------------------------------------------------

  ghost predicate Ascending(names: seq<string>) {
    forall i, j | 0 <= i < j < |names| :: Less(names[i], names[j])
  }

  /** sort.Strings of a map's keys. */
  ghost predicate SortedKeys(names: seq<string>, keys: set<string>) {
    Ascending(names) && forall x :: x in names <==> x in keys
  }

  method InsertSorted(names: seq<string>, x: string) returns (r: seq<string>)
    requires Ascending(names) && x !in names
    ensures Ascending(r) && forall y :: y in r <==> y in names || y == x
  {
    var k := 0;
    while k < |names| && Less(names[k], x)
      invariant k <= |names|
      invariant forall i | 0 <= i < k :: Less(names[i], x)
    {
      k := k + 1;
    }
    r := names[..k] + [x] + names[k..];
    forall i | k <= i < |names|
      ensures Less(x, names[i])
    {
      assert names[k] in names;
      LessTotal(names[k], x);
      if i > k {
        LessTransitive(x, names[k], names[i]);
      }
    }
    assert names == names[..k] + names[k..];
  }

  method SortKeys(keys: set<string>) returns (names: seq<string>)
    ensures SortedKeys(names, keys)
  {
    names := [];
    var todo := keys;
    while todo != {}
      invariant todo <= keys
      invariant SortedKeys(names, keys - todo)
      decreases |todo|
    {
      var x :| x in todo;
      todo := todo - {x};
      names := InsertSorted(names, x);
    }
  }

  /** The candidates of one model, in the order of the providers. */
  function Candidates(catalogue: Catalogue, providers: seq<string>, model: string): seq<Candidate> {
    if providers == [] then []
    else
      var p := providers[|providers| - 1];
      Candidates(catalogue, providers[..|providers| - 1], model) + Offer(catalogue, p, model)
  }

  function Offer(catalogue: Catalogue, p: string, model: string): (r: seq<Candidate>)
    ensures |r| <= 1
  {
    if p in catalogue && model in catalogue[p] && BuildCandidate(p, catalogue[p][model]).Some?
    then [BuildCandidate(p, catalogue[p][model]).value] else []
  }

  /** The map holds for every model the fold of its candidates. */
  ghost predicate SelectedBy(catalogue: Catalogue, providers: seq<string>, selected: map<string, Candidate>) {
    forall m :: Lookup(selected, m) == Select(Candidates(catalogue, providers, m))
  }

  function Lookup(selected: map<string, Candidate>, m: string): Option<Candidate> {
    if m in selected then Some(selected[m]) else None
  }

  /** One provider is one more step of every model's fold. */
  lemma NextProvider(catalogue: Catalogue, providers: seq<string>, k: nat, m: string)
    requires k < |providers|
    ensures Select(Candidates(catalogue, providers[..k + 1], m))
            == Step(Select(Candidates(catalogue, providers[..k], m)), Offer(catalogue, providers[k], m))
  {
    hide Offer, ShouldReplace;
    assert providers[..k + 1][..k] == providers[..k];
    var before, offer := Candidates(catalogue, providers[..k], m), Offer(catalogue, providers[k], m);
    if offer == [] {
      assert before + offer == before;
    } else {
      assert (before + offer)[..|before|] == before;
    }
  }

  function Step(current: Option<Candidate>, offer: seq<Candidate>): Option<Candidate> {
    if offer == [] then current
    else if current.None? || ShouldReplace(current.value, offer[0]) then Some(offer[0])
    else current
  }

  method SelectCandidates(catalogue: Catalogue) returns (selected: map<string, Candidate>)
    ensures exists providers :: SortedKeys(providers, catalogue.Keys) && SelectedBy(catalogue, providers, selected)
  {
    var providers := SortKeys(catalogue.Keys);
    selected := map[];
    for k := 0 to |providers|
      invariant SelectedBy(catalogue, providers[..k], selected)
    {
      var p := providers[k];
      assert p in providers;
      ghost var before := selected;
      selected := AddProvider(catalogue, p, selected);
      forall m
        ensures Lookup(selected, m) == Select(Candidates(catalogue, providers[..k + 1], m))
      {
        NextProvider(catalogue, providers, k, m);
        assert Lookup(before, m) == Select(Candidates(catalogue, providers[..k], m));
      }
    }
    assert providers[..|providers|] == providers;
  }

  /** The inner loop: every model of one provider. */
  method AddProvider(catalogue: Catalogue, p: string, selected: map<string, Candidate>)
    returns (r: map<string, Candidate>)
    requires p in catalogue
    ensures forall m :: Lookup(r, m) == Step(Lookup(selected, m), Offer(catalogue, p, m))
  {
    hide ShouldReplace, BuildCandidate;
    r := selected;
    var models := SortKeys(catalogue[p].Keys);
    for k := 0 to |models|
      invariant forall m :: Lookup(r, m) == if m in models[..k] then Step(Lookup(selected, m), Offer(catalogue, p, m))
                                            else Lookup(selected, m)
    {
      var m := models[k];
      assert m in models;
      assert m !in models[..k] by {
        if m in models[..k] {
          LessTotal(m, m);
        }
      }
      assert models[..k + 1] == models[..k] + [m];
      assert Lookup(r, m) == Lookup(selected, m);
      var candidate := BuildCandidate(p, catalogue[p][m]);
      if candidate.Some? {
        if m !in r || ShouldReplace(r[m], candidate.value) {
          r := r[m := candidate.value];
        }
      }
    }
  }

  // ---------------------------------------------------------------------------------------------
  // What is selected
  // ---------------------------------------------------------------------------------------------

  /** A model's candidates are the offers of the providers, each under its provider's name, in provider order. */
  lemma {:induction false} CandidatesAre(catalogue: Catalogue, providers: seq<string>, m: string)
    requires Ascending(providers)
    ensures forall p | p in providers && Offer(catalogue, p, m) != [] ::
              Offer(catalogue, p, m)[0] in Candidates(catalogue, providers, m)
    ensures forall c | c in Candidates(catalogue, providers, m) ::
              c.provider in providers && Offer(catalogue, c.provider, m) == [c]
    ensures InProviderOrder(Candidates(catalogue, providers, m))
  {
    hide Less;
    if providers != [] {
      var n := |providers| - 1;
      var rest, p := providers[..n], providers[n];
      assert providers == rest + [p];
      CandidatesAre(catalogue, rest, m);
      OfferIsValid(catalogue, p, m);
      hide Offer;
      var before, offer := Candidates(catalogue, rest, m), Offer(catalogue, p, m);
      forall c | c in before
        ensures Less(c.provider, p)
      {
        var i :| 0 <= i < n && rest[i] == c.provider;
        assert providers[i] == rest[i];
      }
      AppendInOrder(before, offer, p);
    }
  }

  lemma AppendInOrder(before: seq<Candidate>, offer: seq<Candidate>, p: string)
    requires InProviderOrder(before) && |offer| <= 1
    requires offer != [] ==> offer[0].provider == p && offer[0].input >= 0.0
    requires forall c | c in before :: Less(c.provider, p)
    ensures InProviderOrder(before + offer)
  {
  }

  lemma OfferIsValid(catalogue: Catalogue, p: string, m: string)
    ensures forall c | c in Offer(catalogue, p, m) :: c.provider == p && c.input >= 0.0
  {
  }

  /** The provider makes a usable offer for the model, at this price. */
  ghost predicate Offers(catalogue: Catalogue, p: string, m: string, input: real) {
    && p in catalogue && m in catalogue[p]
    && BuildCandidate(p, catalogue[p][m]).Some? && BuildCandidate(p, catalogue[p][m]).value.input == input
  }

  /**
   * The selection over the whole catalogue: a model has a price exactly when some provider makes a usable
   * offer; the price is one of the offers; it is zero only if all are; otherwise it is less than epsilon
   * above every non-zero offer, and below those of providers earlier in name order.
   */
  lemma SelectedPrice(catalogue: Catalogue, providers: seq<string>, selected: map<string, Candidate>, m: string)
    requires SortedKeys(providers, catalogue.Keys) && SelectedBy(catalogue, providers, selected)
    ensures m in selected <==> exists p, input :: Offers(catalogue, p, m, input)
    ensures m in selected ==> Offers(catalogue, selected[m].provider, m, selected[m].input)
    ensures m in selected ==>
              forall p, input | Offers(catalogue, p, m, input) && input > 0.0 ::
                && 0.0 < selected[m].input < input + EPSILON
                && (Less(p, selected[m].provider) ==> selected[m].input < input)
  {
    hide Less, BuildCandidate, ShouldReplace, InProviderOrder, Offers, Offer, Select, Candidates, GoodChoice;
    var candidates := Candidates(catalogue, providers, m);
    CandidatesAre(catalogue, providers, m);
    assert Lookup(selected, m) == Select(candidates);
    forall p, input | Offers(catalogue, p, m, input)
      ensures exists j :: 0 <= j < |candidates| && candidates[j].provider == p && candidates[j].input == input
    {
      OfferAt(catalogue, providers, p, m, input);
    }
    if candidates == [] {
      assert Select([]) == None by { SelectNone(); }
    } else {
      var k := SelectIsGood(candidates);
      CandidateOffers(catalogue, providers, m, k);
      forall p, input | Offers(catalogue, p, m, input) && input > 0.0
        ensures 0.0 < candidates[k].input < input + EPSILON
        ensures Less(p, candidates[k].provider) ==> candidates[k].input < input
      {
        var j :| 0 <= j < |candidates| && candidates[j].provider == p && candidates[j].input == input;
        GoodAt(candidates, k, j);
      }
    }
  }

  lemma SelectNone()
    ensures Select([]) == None
  {
  }

  lemma OfferAt(catalogue: Catalogue, providers: seq<string>, p: string, m: string, input: real)
    requires SortedKeys(providers, catalogue.Keys) && Offers(catalogue, p, m, input)
    ensures exists j | 0 <= j < |Candidates(catalogue, providers, m)| ::
              var c := Candidates(catalogue, providers, m)[j]; c.provider == p && c.input == input
  {
    hide Less, Candidates, InProviderOrder;
    CandidatesAre(catalogue, providers, m);
    assert Offer(catalogue, p, m)[0] in Candidates(catalogue, providers, m);
  }

  lemma CandidateOffers(catalogue: Catalogue, providers: seq<string>, m: string, k: nat)
    requires SortedKeys(providers, catalogue.Keys) && k < |Candidates(catalogue, providers, m)|
    ensures var c := Candidates(catalogue, providers, m)[k]; Offers(catalogue, c.provider, m, c.input)
  {
    hide Less, Candidates, InProviderOrder;
    CandidatesAre(catalogue, providers, m);
    assert Candidates(catalogue, providers, m)[k] in Candidates(catalogue, providers, m);
  }

  lemma GoodAt(candidates: seq<Candidate>, k: nat, j: nat)
    requires GoodChoice(candidates, k) && InProviderOrder(candidates)
    requires j < |candidates| && candidates[j].input > 0.0
    ensures 0.0 < candidates[k].input < candidates[j].input + EPSILON
    ensures Less(candidates[j].provider, candidates[k].provider) ==> candidates[k].input < candidates[j].input
  {
    hide Less;
    assert candidates[j] in candidates;
    if Less(candidates[j].provider, candidates[k].provider) {
      LessTotal(candidates[j].provider, candidates[k].provider);
    }
  }

  /** A set of names has one sorted listing. */
  lemma {:induction false} SortedKeysUnique(a: seq<string>, b: seq<string>, keys: set<string>)
    requires SortedKeys(a, keys) && SortedKeys(b, keys)
    ensures a == b
  {
    hide Less;
    assert b != [] ==> b[0] in b;
    if a != [] {
      var x := a[|a| - 1];
      assert x in a;
      var y := b[|b| - 1];
      assert y in b;
      LastIsLargest(a, y);
      LastIsLargest(b, x);
      LessTotal(x, y);
      WithoutLast(a, keys);
      WithoutLast(b, keys);
      SortedKeysUnique(a[..|a| - 1], b[..|b| - 1], keys - {x});
      assert a == a[..|a| - 1] + [x];
      assert b == b[..|b| - 1] + [x];
    }
  }

  lemma LastIsLargest(names: seq<string>, x: string)
    requires Ascending(names) && x in names
    ensures x == names[|names| - 1] || Less(x, names[|names| - 1])
  {
  }

  lemma WithoutLast(names: seq<string>, keys: set<string>)
    requires SortedKeys(names, keys) && names != []
    ensures SortedKeys(names[..|names| - 1], keys - {names[|names| - 1]})
  {
    hide Less;
    var n := |names| - 1;
    assert names == names[..n] + [names[n]];
    if names[n] in names[..n] {
      LessTotal(names[n], names[n]);
    }
  }

  /** The result does not depend on the order in which Go walks its maps. */
  lemma SelectionIsDetermined(catalogue: Catalogue, a: seq<string>, b: seq<string>,
                              selectedA: map<string, Candidate>, selectedB: map<string, Candidate>)
    requires SortedKeys(a, catalogue.Keys) && SelectedBy(catalogue, a, selectedA)
    requires SortedKeys(b, catalogue.Keys) && SelectedBy(catalogue, b, selectedB)
    ensures selectedA == selectedB
  {
    hide Select, Candidates;
    SortedKeysUnique(a, b, catalogue.Keys);
    forall m
      ensures m in selectedA <==> m in selectedB
      ensures m in selectedA ==> selectedA[m] == selectedB[m]
    {
      assert Lookup(selectedA, m) == Lookup(selectedB, m);
    }
  }
}
