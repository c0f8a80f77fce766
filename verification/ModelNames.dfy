/**
 Ordered lists of model names: the helpers of controller/channel_upstream_update.go lines 100-150.
 Every helper first normalizes its arguments (trim, drop blanks, keep first occurrences), so a result is
 an ordered set; `Only` is the one filter they are all built from.
 */
module ModelNames {
  import opened Text

  function Names(xs: seq<string>): set<string> {
    set x | x in xs
  }

  predicate NoDuplicates(xs: seq<string>) {
    forall i, j :: 0 <= i < j < |xs| ==> xs[i] != xs[j]
  }

  predicate Clean(x: string) {
    x != "" && TrimSpace(x) == x
  }

  /** Trimmed, not blank, and no name twice. */
  predicate Normal(xs: seq<string>) {
    NoDuplicates(xs) && forall x :: x in xs ==> Clean(x)
  }

  /** lo.FilterMap with TrimSpace. */
  function Trimmed(xs: seq<string>): (r: seq<string>)
    ensures forall x :: x in r ==> Clean(x)
  {
    if xs == [] then []
    else
      var x := TrimSpace(xs[0]);
      TrimSpaceIdempotent(xs[0]);
      (if x == "" then [] else [x]) + Trimmed(xs[1..])
  }

  /** lo.Uniq: first occurrences, in order. */
  function Uniq(xs: seq<string>): (r: seq<string>)
    ensures NoDuplicates(r)
    ensures forall x :: x in r <==> x in xs
  {
    if xs == [] then []
    else
      var r := Uniq(xs[..|xs| - 1]);
      var x := xs[|xs| - 1];
      if x in r then r else r + [x]
  }

  function Normalize(xs: seq<string>): (r: seq<string>)
    ensures Normal(r)
  {
    Uniq(Trimmed(xs))
  }

  /** The elements of `xs` that are in `s`, in the order of `xs`. */
  function Only(xs: seq<string>, s: set<string>): (r: seq<string>)
    ensures forall x :: x in r <==> x in xs && x in s
    ensures NoDuplicates(xs) ==> NoDuplicates(r)
  {
    if xs == [] then []
    else
      var r := Only(xs[..|xs| - 1], s);
      var x := xs[|xs| - 1];
      if x in s then r + [x] else r
  }

  function Without(xs: seq<string>, s: set<string>): (r: seq<string>)
    ensures forall x :: x in r <==> x in xs && x !in s
    ensures NoDuplicates(xs) ==> NoDuplicates(r)
  {
    Only(xs, Names(xs) - s)
  }

  lemma AppendNoDuplicates(a: seq<string>, b: seq<string>)
    requires NoDuplicates(a) && NoDuplicates(b) && forall x :: x in b ==> x !in a
    ensures NoDuplicates(a + b)
  {
    forall i, j | 0 <= i < j < |a + b|
      ensures (a + b)[i] != (a + b)[j]
    {
      if i < |a| <= j {
        assert b[j - |a|] in b;
      }
    }
  }

  function Merge(base: seq<string>, appended: seq<string>): (r: seq<string>)
    ensures Normal(r)
    ensures forall x :: x in r <==> x in Normalize(base) || x in Normalize(appended)
  {
    var merged := Normalize(base);
    var extra := Without(Normalize(appended), Names(merged));
    AppendNoDuplicates(merged, extra);
    merged + extra
  }

  function Subtract(base: seq<string>, removed: seq<string>): (r: seq<string>)
    ensures Normal(r)
    ensures forall x :: x in r <==> x in Normalize(base) && x !in Normalize(removed)
  {
    Without(Normalize(base), Names(Normalize(removed)))
  }

  function Intersect(base: seq<string>, allowed: seq<string>): (r: seq<string>)
    ensures Normal(r)
    ensures forall x :: x in r <==> x in Normalize(base) && x in Normalize(allowed)
  {
    Only(Normalize(base), Names(Normalize(allowed)))
  }

  function ApplySelected(origin: seq<string>, add: seq<string>, remove: seq<string>): (r: seq<string>)
    ensures Normal(r)
    ensures forall x :: x in r <==>
                          x in Normalize(add) || (x in Normalize(origin) && x !in Normalize(remove))
  {
    NormalizeNormal(Normalize(add));
    NormalizeNormal(Normalize(remove));
    var normalizedAdd := Normalize(add);
    var normalizedRemove := Subtract(Normalize(remove), normalizedAdd);
    NormalizeNormal(normalizedRemove);
    NormalizeNormal(Merge(origin, normalizedAdd));
    Subtract(Merge(origin, normalizedAdd), normalizedRemove)
  }

  // ---------------------------------------------------------------- algebra

  lemma {:induction false} TrimmedFixed(xs: seq<string>)
    requires forall x :: x in xs ==> Clean(x)
    ensures Trimmed(xs) == xs
  {
    if xs != [] {
      assert Clean(xs[0]) && forall x :: x in xs[1..] ==> x in xs;
      TrimmedFixed(xs[1..]);
      assert xs == [xs[0]] + xs[1..];
    }
  }

  lemma {:induction false} TrimmedConcat(a: seq<string>, b: seq<string>)
    ensures Trimmed(a + b) == Trimmed(a) + Trimmed(b)
  {
    if a == [] {
      assert a + b == b;
    } else {
      assert a + b == [a[0]] + (a[1..] + b);
      assert (a + b)[1..] == a[1..] + b;
      TrimmedConcat(a[1..], b);
    }
  }

  lemma {:induction false} UniqFixed(xs: seq<string>)
    requires NoDuplicates(xs)
    ensures Uniq(xs) == xs
  {
    if xs != [] {
      var n := |xs| - 1;
      UniqFixed(xs[..n]);
      assert xs == xs[..n] + [xs[n]];
    }
  }

  lemma UniqSnoc(xs: seq<string>, x: string)
    ensures Uniq(xs + [x]) == if x in xs then Uniq(xs) else Uniq(xs) + [x]
  {
    assert (xs + [x])[..|xs|] == xs;
  }

  lemma UniqConcatSnoc(a: seq<string>, rest: seq<string>, x: string)
    requires Uniq(a + rest) == Uniq(a) + Without(Uniq(rest), Names(a))
    ensures Uniq(a + rest + [x]) == Uniq(a) + Without(Uniq(rest + [x]), Names(a))
  {
    hide *;
    MemberConcat(a, rest, x);
    UniqSnoc(a + rest, x);
    UniqSnoc(rest, x);
    WithoutExtend(Uniq(rest), x, Names(a));
    var u, w := Uniq(a), Without(Uniq(rest), Names(a));
    assert u + w + [x] == u + (w + [x]);
  }

  lemma MemberConcat(a: seq<string>, rest: seq<string>, x: string)
    ensures x in a + rest <==> x in a || x in rest
    ensures x in Names(a) <==> x in a
  {
  }

  lemma {:induction false} UniqConcat(a: seq<string>, b: seq<string>)
    ensures Uniq(a + b) == Uniq(a) + Without(Uniq(b), Names(a))
  {
    if b == [] {
      assert a + b == a;
    } else {
      hide *;
      var rest, x := b[..|b| - 1], b[|b| - 1];
      assert b == rest + [x] && a + b == a + rest + [x];
      UniqConcat(a, rest);
      UniqConcatSnoc(a, rest, x);
    }
  }

  lemma WithoutExtend(xs: seq<string>, x: string, s: set<string>)
    ensures Without(xs + [x], s) == if x in s then Without(xs, s) else Without(xs, s) + [x]
  {
    assert (xs + [x])[..|xs|] == xs;
    OnlySame(xs, Names(xs + [x]) - s, Names(xs) - s);
  }

  /** Normalizing an already normal list changes nothing. */
  lemma NormalizeNormal(xs: seq<string>)
    requires Normal(xs)
    ensures Normalize(xs) == xs
  {
    TrimmedFixed(xs);
    UniqFixed(xs);
  }

  lemma NormalizeConcat(a: seq<string>, b: seq<string>)
    ensures Normalize(a + b) == Normalize(a) + Without(Normalize(b), Names(Normalize(a)))
  {
    TrimmedConcat(a, b);
    UniqConcat(Trimmed(a), Trimmed(b));
    assert Names(Trimmed(a)) == Names(Normalize(a));
  }

  lemma {:induction false} OnlyConcat(a: seq<string>, b: seq<string>, s: set<string>)
    ensures Only(a + b, s) == Only(a, s) + Only(b, s)
  {
    if b == [] {
      assert a + b == a;
    } else {
      assert (a + b)[..|a + b| - 1] == a + b[..|b| - 1];
      assert (a + b)[|a + b| - 1] == b[|b| - 1];
      OnlyConcat(a, b[..|b| - 1], s);
    }
  }

  lemma {:induction false} OnlyOnly(xs: seq<string>, s: set<string>, t: set<string>)
    ensures Only(Only(xs, s), t) == Only(xs, s * t)
  {
    if xs != [] {
      OnlyOnly(xs[..|xs| - 1], s, t);
      var r := Only(xs[..|xs| - 1], s);
      assert (r + [xs[|xs| - 1]])[..|r|] == r;
    }
  }

  /** Two filters of the same list that agree on its elements are the same list. */
  lemma {:induction false} OnlySame(xs: seq<string>, s: set<string>, t: set<string>)
    requires forall x :: x in xs ==> (x in s <==> x in t)
    ensures Only(xs, s) == Only(xs, t)
  {
    if xs != [] {
      OnlySame(xs[..|xs| - 1], s, t);
    }
  }

  lemma {:induction false} OnlyAll(xs: seq<string>, s: set<string>)
    requires forall x :: x in xs ==> x in s
    ensures Only(xs, s) == xs
  {
    if xs != [] {
      var rest, x := xs[..|xs| - 1], xs[|xs| - 1];
      assert xs == rest + [x];
      assert x in xs;
      forall y | y in rest ensures y in s {
        assert y in xs;
      }
      OnlyAll(rest, s);
      assert Only(xs, s) == Only(rest, s) + [x];
    }
  }

  lemma {:induction false} OnlyNone(xs: seq<string>, s: set<string>)
    requires forall x | x in xs :: x !in s
    ensures Only(xs, s) == []
  {
    if xs != [] {
      var rest, x := xs[..|xs| - 1], xs[|xs| - 1];
      assert xs == rest + [x];
      assert x in xs;
      OnlyNone(rest, s);
    }
  }

  // ---------------------------------------------------------------- order

  /** `r` is `xs` with some names left out. */
  ghost predicate Subsequence(r: seq<string>, xs: seq<string>) {
    r == [] ||
    (xs != [] &&
     (Subsequence(r, xs[..|xs| - 1]) ||
      (r[|r| - 1] == xs[|xs| - 1] && Subsequence(r[..|r| - 1], xs[..|xs| - 1]))))
  }

  lemma {:induction false} OnlyKeepsOrder(xs: seq<string>, s: set<string>)
    ensures Subsequence(Only(xs, s), xs)
  {
    if xs != [] {
      var rest, x := xs[..|xs| - 1], xs[|xs| - 1];
      OnlyKeepsOrder(rest, s);
      var r := Only(rest, s);
      if x in s {
        assert Only(xs, s) == r + [x];
        assert (r + [x])[..|r|] == r;
      }
    }
  }

  /** A merge is the normal form of the concatenation. */
  lemma MergeIs(base: seq<string>, appended: seq<string>)
    ensures Merge(base, appended) == Normalize(base + appended)
    ensures Normalize(base) <= Merge(base, appended)
    ensures forall x :: x in Merge(base, appended) <==> x in Normalize(base) || x in Normalize(appended)
  {
    NormalizeConcat(base, appended);
  }

  /** Subtracting leaves exactly the names that are not removed, each once, in their order. */
  lemma SubtractIs(base: seq<string>, removed: seq<string>)
    ensures var r := Subtract(base, removed);
            && Normal(r) && Subsequence(r, Normalize(base))
            && forall x :: x in r <==> x in Normalize(base) && x !in Normalize(removed)
  {
    OnlyKeepsOrder(Normalize(base), Names(Normalize(base)) - Names(Normalize(removed)));
  }

  /** Intersecting leaves exactly the allowed names, each once, in their order. */
  lemma IntersectIs(base: seq<string>, allowed: seq<string>)
    ensures var r := Intersect(base, allowed);
            && Normal(r) && Subsequence(r, Normalize(base))
            && forall x :: x in r <==> x in Normalize(base) && x in Normalize(allowed)
  {
    OnlyKeepsOrder(Normalize(base), Names(Normalize(allowed)));
  }

  /** Applying a selection: exactly the added and the unremoved names, each once, in the order of the merged list. */
  lemma ApplySelectedIs(origin: seq<string>, add: seq<string>, remove: seq<string>)
    ensures var r := ApplySelected(origin, add, remove);
            && Normal(r) && Subsequence(r, Normalize(origin + add))
            && forall x :: x in r <==> x in Normalize(add) || (x in Normalize(origin) && x !in Normalize(remove))
  {
    NormalizeNormal(Normalize(add));
    MergeIs(origin, Normalize(add));
    NormalizeConcat(origin, add);
    var merged := Merge(origin, Normalize(add));
    assert merged == Normalize(origin + add);
    NormalizeNormal(merged);
    SubtractIs(merged, Subtract(Normalize(remove), Normalize(add)));
  }

  // ---------------------------------------------------------------- the loop of mergeModelNames

  lemma NextName(names: seq<string>, k: nat, s: set<string>)
    requires NoDuplicates(names) && k < |names|
    ensures Names(names[..k + 1]) == Names(names[..k]) + {names[k]} && names[k] !in Names(names[..k])
    ensures Without(names[..k + 1], s) == Without(names[..k], s) + if names[k] in s then [] else [names[k]]
  {
    hide Without;
    assert names[..k + 1] == names[..k] + [names[k]];
    WithoutExtend(names[..k], names[k], s);
  }

  lemma NoNames(names: seq<string>, s: set<string>)
    ensures Names(names[..0]) == {} && Without(names[..0], s) == []
  {
  }

  /** Appends the new names one by one, remembering the ones seen. */
  method AppendUnseen(base: seq<string>, names: seq<string>) returns (merged: seq<string>)
    requires NoDuplicates(names)
    ensures merged == base + Without(names, Names(base))
  {
    hide *;
    merged := base;
    var seen := Names(merged);
    NoNames(names, Names(base));
    for k := 0 to |names|
      invariant seen == Names(base) + Names(names[..k])
      invariant merged == base + Without(names[..k], Names(base))
    {
      NextName(names, k, Names(base));
      var model := names[k];
      if model !in seen {
        seen := seen + {model};
        merged := merged + [model];
      }
    }
    assert names[..|names|] == names;
  }

  method MergeModelNames(base: seq<string>, appended: seq<string>) returns (merged: seq<string>)
    ensures merged == Merge(base, appended)
  {
    merged := AppendUnseen(Normalize(base), Normalize(appended));
  }
}
