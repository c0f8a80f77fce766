/** The string operations of Go's `strings` package that the model relies on. */
module Text {

  /** unicode.IsSpace */
  predicate IsSpace(c: char) {
    c == '\t' || c == '\n' || c == '\U{0B}' || c == '\U{0C}' || c == '\r' || c == ' '
    || c == '\U{85}' || c == '\U{A0}' || c == '\U{1680}' || '\U{2000}' <= c <= '\U{200A}'
    || c == '\U{2028}' || c == '\U{2029}' || c == '\U{202F}' || c == '\U{205F}' || c == '\U{3000}'
  }

  function TrimSpace(s: string): (r: string)
    ensures |r| <= |s|
    ensures r == "" || (!IsSpace(r[0]) && !IsSpace(r[|r| - 1]))
    ensures forall c :: c in r ==> c in s
    decreases |s|
  {
    if s == "" then ""
    else if IsSpace(s[0]) then TrimSpace(s[1..])
    else if IsSpace(s[|s| - 1]) then TrimSpace(s[..|s| - 1])
    else s
  }

  /** What is trimmed off is the white space at both ends, and nothing else. */
  lemma {:induction false} TrimSpaceIs(s: string) returns (i: nat, j: nat)
    ensures i <= j <= |s| && TrimSpace(s) == s[i..j]
    ensures (forall k | 0 <= k < i :: IsSpace(s[k])) && (forall k | j <= k < |s| :: IsSpace(s[k]))
    ensures TrimSpace(s) != "" ==> !IsSpace(s[i]) && !IsSpace(s[j - 1])
    decreases |s|
  {
    hide IsSpace;
    if s == "" {
      i, j := 0, 0;
    } else if IsSpace(s[0]) {
      var rest := s[1..];
      i, j := TrimSpaceIs(rest);
      assert forall k | 0 < k < |s| :: s[k] == rest[k - 1];
      i, j := i + 1, j + 1;
    } else if IsSpace(s[|s| - 1]) {
      var front := s[..|s| - 1];
      i, j := TrimSpaceIs(front);
      assert forall k | 0 <= k < |s| - 1 :: s[k] == front[k];
    } else {
      i, j := 0, |s|;
    }
  }

  lemma TrimsToNothing(s: string)
    ensures TrimSpace(s) == "" <==> forall k | 0 <= k < |s| :: IsSpace(s[k])
  {
    var i, j := TrimSpaceIs(s);
    hide IsSpace, TrimSpace;
  }

  /** White space is trimmed and letters are not. */
  lemma TrimSpaceExample()
    ensures TrimSpace(" a b\t\n") == "a b"
  {
    var s := " a b\t\n";
    assert s[1..] == "a b\t\n" && s[1..][..4] == "a b\t" && s[1..][..4][..3] == "a b";
  }

  lemma TrimSpaceIdempotent(s: string)
    ensures TrimSpace(TrimSpace(s)) == TrimSpace(s)
  {
  }

  /** Puts one more character in front of the first part. */
  function Extend(c: char, parts: seq<string>): seq<string>
    requires parts != []
  {
    [[c] + parts[0]] + parts[1..]
  }

  /** strings.Split with a one-character separator. */
  function Split(s: string, sep: char): (parts: seq<string>)
    ensures parts != []
  {
    if s == "" then [""]
    else if s[0] == sep then [""] + Split(s[1..], sep)
    else Extend(s[0], Split(s[1..], sep))
  }

  /** strings.Join with a one-character separator. */
  function Join(parts: seq<string>, sep: char): string {
    if parts == [] then ""
    else if |parts| == 1 then parts[0]
    else parts[0] + [sep] + Join(parts[1..], sep)
  }

  /** strings.Trim with a one-character cutset. */
  function TrimChar(s: string, c: char): string
    decreases |s|
  {
    if s == "" then ""
    else if s[0] == c then TrimChar(s[1..], c)
    else if s[|s| - 1] == c then TrimChar(s[..|s| - 1], c)
    else s
  }

  /** All leading and trailing occurrences are cut off, and nothing else. */
  lemma {:induction false} TrimCharIs(s: string, c: char) returns (i: nat, j: nat)
    ensures i <= j <= |s| && TrimChar(s, c) == s[i..j]
    ensures (forall k | 0 <= k < i :: s[k] == c) && (forall k | j <= k < |s| :: s[k] == c)
    ensures i < j ==> s[i] != c && s[j - 1] != c
    decreases |s|
  {
    if s == "" {
      i, j := 0, 0;
    } else if s[0] == c {
      var rest := s[1..];
      i, j := TrimCharIs(rest, c);
      assert forall k | 0 < k < |s| :: s[k] == rest[k - 1];
      i, j := i + 1, j + 1;
    } else if s[|s| - 1] == c {
      i, j := TrimCharIs(s[..|s| - 1], c);
    } else {
      i, j := 0, |s|;
    }
  }

  lemma ExtendConcat(c: char, p: seq<string>, q: seq<string>)
    requires p != []
    ensures Extend(c, p + q) == Extend(c, p) + q
  {
  }

  lemma {:induction false} SplitConcat(a: string, b: string, sep: char)
    ensures Split(a + [sep] + b, sep) == Split(a, sep) + Split(b, sep)
  {
    var whole := a + [sep] + b;
    if a == "" {
      assert whole[1..] == b;
    } else {
      assert whole[1..] == a[1..] + [sep] + b;
      SplitConcat(a[1..], b, sep);
      ExtendConcat(a[0], Split(a[1..], sep), Split(b, sep));
    }
  }

  /** No part contains the separator. */
  lemma {:induction false} SplitParts(s: string, sep: char)
    ensures forall p :: p in Split(s, sep) ==> sep !in p
  {
    if s != "" {
      SplitParts(s[1..], sep);
      var rest := Split(s[1..], sep);
      assert rest[0] in rest && forall p :: p in rest[1..] ==> p in rest;
    }
  }

  lemma {:induction false} SplitWhole(a: string, sep: char)
    requires sep !in a
    ensures Split(a, sep) == [a]
  {
    if a != "" {
      SplitWhole(a[1..], sep);
      assert [a[0]] + a[1..] == a;
    }
  }

  ghost predicate SepFree(parts: seq<string>, sep: char) {
    forall p | p in parts :: sep !in p
  }

  lemma {:induction false} SplitJoin(parts: seq<string>, sep: char)
    requires parts != [] && SepFree(parts, sep)
    ensures Split(Join(parts, sep), sep) == parts
  {
    assert parts[0] in parts;
    SplitWhole(parts[0], sep);
    if |parts| > 1 {
      SplitJoin(parts[1..], sep);
      SplitConcat(parts[0], Join(parts[1..], sep), sep);
    }
  }

  lemma {:induction false} JoinSnoc(parts: seq<string>, sep: char)
    requires |parts| > 1
    ensures Join(parts, sep) == Join(parts[..|parts| - 1], sep) + [sep] + parts[|parts| - 1]
  {
    var n := |parts| - 1;
    if n > 1 {
      JoinSnoc(parts[1..], sep);
      assert parts[1..][..n - 1] == parts[..n][1..];
    }
  }

  /** Trimming the separators off a joined list takes off its blank ends, and nothing else. */
  lemma {:induction false} SplitTrimJoin(parts: seq<string>, sep: char)
    requires parts != [] && SepFree(parts, sep)
    ensures var r := Split(TrimChar(Join(parts, sep), sep), sep);
            && |r| <= |parts|
            && (parts[0] != "" && parts[|parts| - 1] != "" ==> r == parts)
            && (|parts| > 1 && (parts[0] == "" || parts[|parts| - 1] == "") ==> |r| < |parts|)
    decreases |parts|
  {
    var n, whole := |parts| - 1, Join(parts, sep);
    assert parts[0] in parts && parts[n] in parts;
    if n == 0 {
      SplitJoin(parts, sep);
    } else if parts[0] == "" {
      hide Split;
      assert whole == [sep] + Join(parts[1..], sep);
      assert whole[1..] == Join(parts[1..], sep);
      SplitTrimJoin(parts[1..], sep);
    } else {
      hide Split;
      JoinSnoc(parts, sep);
      assert whole[0] == parts[0][0];
      if parts[n] == "" {
        assert whole[..|whole| - 1] == Join(parts[..n], sep);
        SplitTrimJoin(parts[..n], sep);
      } else {
        SplitJoin(parts, sep);
        assert whole[|whole| - 1] == parts[n][|parts[n]| - 1];
      }
    }
  }

  /** The order sort.Strings uses. */
  predicate Less(a: string, b: string) {
    if b == "" then false
    else if a == "" then true
    else if a[0] != b[0] then a[0] < b[0]
    else Less(a[1..], b[1..])
  }

  lemma {:induction false} LessTotal(a: string, b: string)
    ensures a == b || Less(a, b) || Less(b, a)
    ensures !(Less(a, b) && Less(b, a))
    ensures !Less(a, a)
  {
    if a != "" && b != "" {
      LessTotal(a[1..], b[1..]);
      if a[0] == b[0] && a[1..] == b[1..] {
        assert a == [a[0]] + a[1..] && b == [b[0]] + b[1..];
      }
      LessTotal(a[1..], a[1..]);
    } else if a != "" {
      LessTotal(a[1..], a[1..]);
    }
  }

  lemma {:induction false} LessTransitive(a: string, b: string, c: string)
    requires Less(a, b) && Less(b, c)
    ensures Less(a, c)
  {
    if a != "" && a[0] == b[0] == c[0] {
      LessTransitive(a[1..], b[1..], c[1..]);
    }
  }
}
