/** String and sequence helpers shared by the analysis engine: occurrence
    counts, Python-style `str.split`/`str.strip`/`str.lower`/`in`, first-seen
    de-duplication (`pd.unique`) and `sorted(set(...))` on strings. */
module Text {

  /** Number of occurrences of `x` in `s` (defined from the end, so that a
      loop that appends one element at a time can follow it). */
  function Count<T(==)>(s: seq<T>, x: T): (n: nat)
    ensures n <= |s|
    ensures n == 0 <==> x !in s
  {
    if s == [] then 0
    else Count(s[..|s| - 1], x) + (if s[|s| - 1] == x then 1 else 0)
  }

  lemma {:induction false} CountAppend<T>(s: seq<T>, t: seq<T>, x: T)
    ensures Count(s + t, x) == Count(s, x) + Count(t, x)
    decreases |t|
  {
    if t == [] {
      assert s + t == s;
    } else {
      assert (s + t)[..|s + t| - 1] == s + t[..|t| - 1];
      CountAppend(s, t[..|t| - 1], x);
    }
  }

  predicate Distinct<T(==)>(s: seq<T>) {
    forall i, j :: 0 <= i < j < |s| ==> s[i] != s[j]
  }

  lemma DistinctPosition<T>(s: seq<T>, i: nat, j: nat)
    requires Distinct(s) && i < |s| && j < |s| && s[i] == s[j]
    ensures i == j
  {
  }

  /** The first position of `x` in `s` (`list.index`, or a label lookup in
      a pandas index). */
  function PositionOf<T(==)>(s: seq<T>, x: T): (p: nat)
    requires x in s
    ensures p < |s| && s[p] == x
    ensures forall i :: 0 <= i < p ==> s[i] != x
  {
    if s[0] == x then 0 else 1 + PositionOf(s[1..], x)
  }

  /** In a sequence without repeats a label is found where it stands. */
  lemma PositionOfDistinct<T>(s: seq<T>, i: nat)
    requires Distinct(s) && i < |s|
    ensures PositionOf(s, s[i]) == i
  {
  }

  /** `pd.unique`: the distinct elements of `s` in order of first appearance. */
  function Unique(s: seq<string>): (u: seq<string>)
    ensures Distinct(u)
    ensures forall x :: x in u <==> x in s
    ensures |u| <= |s|
  {
    if s == [] then []
    else
      var u := Unique(s[..|s| - 1]);
      assert forall x :: x in s <==> x in s[..|s| - 1] || x == s[|s| - 1];
      if s[|s| - 1] in u then u else u + [s[|s| - 1]]
  }

  /** Elements of `s` that are not in `drop`, in order (a list comprehension
      `[x for x in s if x not in drop]`). */
  function Without(s: seq<string>, drop: set<string>): (r: seq<string>)
    ensures forall x :: x in r <==> x in s && x !in drop
    ensures Distinct(s) ==> Distinct(r)
  {
    if s == [] then []
    else
      var r := Without(s[..|s| - 1], drop);
      assert forall x :: x in s <==> x in s[..|s| - 1] || x == s[|s| - 1];
      if s[|s| - 1] in drop then r else r + [s[|s| - 1]]
  }

  /** The summed occurrences in `xs` of the given labels. */
  function CountSum(labels: seq<string>, xs: seq<string>): nat {
    if labels == [] then 0 else CountSum(labels[..|labels| - 1], xs) + Count(xs, labels[|labels| - 1])
  }

  lemma {:induction false} CountSumStep(labels: seq<string>, xs: seq<string>, y: string)
    requires Distinct(labels)
    ensures CountSum(labels, xs + [y]) == CountSum(labels, xs) + (if y in labels then 1 else 0)
  {
    if labels != [] {
      var init := labels[..|labels| - 1];
      var z := labels[|labels| - 1];
      assert Distinct(init);
      CountSumStep(init, xs, y);
      CountAppend(xs, [y], z);
      assert [y][..0] == [];
      assert y in labels <==> y in init || y == z;
      if y == z {
        assert y !in init by {
          forall i | 0 <= i < |init| ensures init[i] != y {
            assert labels[i] != labels[|labels| - 1];
          }
        }
      }
    }
  }

  lemma {:induction false} CountSumOfNothing(labels: seq<string>)
    ensures CountSum(labels, []) == 0
  {
    if labels != [] {
      CountSumOfNothing(labels[..|labels| - 1]);
    }
  }

  /** Distinct labels share out at most all the values. */
  lemma {:induction false} CountSumBound(labels: seq<string>, xs: seq<string>)
    requires Distinct(labels)
    ensures CountSum(labels, xs) <= |xs|
  {
    if xs == [] {
      CountSumOfNothing(labels);
    } else {
      var init := xs[..|xs| - 1];
      CountSumBound(labels, init);
      CountSumStep(labels, init, xs[|xs| - 1]);
      assert init + [xs[|xs| - 1]] == xs;
    }
  }

  /** Distinct labels that cover every value share out all of them. */
  lemma {:induction false} CountSumAll(labels: seq<string>, xs: seq<string>)
    requires Distinct(labels)
    requires forall x :: x in xs ==> x in labels
    ensures CountSum(labels, xs) == |xs|
  {
    if xs == [] {
      CountSumOfNothing(labels);
    } else {
      var init := xs[..|xs| - 1];
      assert forall x :: x in init ==> x in xs;
      CountSumAll(labels, init);
      CountSumStep(labels, init, xs[|xs| - 1]);
      assert init + [xs[|xs| - 1]] == xs;
    }
  }

  // ---------------------------------------------------------------------
  // Ordering of strings (Python compares strings by code point).

  predicate Less(a: string, b: string)
  {
    if |a| == 0 then |b| > 0
    else if |b| == 0 then false
    else a[0] < b[0] || (a[0] == b[0] && Less(a[1..], b[1..]))
  }

  lemma {:induction false} LessIrreflexive(a: string)
    ensures !Less(a, a)
  {
    if |a| > 0 {
      LessIrreflexive(a[1..]);
    }
  }

  lemma {:induction false} LessTransitive(a: string, b: string, c: string)
    requires Less(a, b) && Less(b, c)
    ensures Less(a, c)
  {
    if |a| > 0 && |b| > 0 && |c| > 0 && a[0] == b[0] && b[0] == c[0] {
      LessTransitive(a[1..], b[1..], c[1..]);
    }
  }

  lemma {:induction false} LessTotal(a: string, b: string)
    requires a != b
    ensures Less(a, b) || Less(b, a)
  {
    if |a| > 0 && |b| > 0 && a[0] == b[0] {
      assert a == [a[0]] + a[1..] && b == [b[0]] + b[1..];
      LessTotal(a[1..], b[1..]);
    }
  }

  /** Strictly increasing, hence also free of duplicates. */
  predicate StrictlySorted(s: seq<string>) {
    forall i, j :: 0 <= i < j < |s| ==> Less(s[i], s[j])
  }

  /** Inserts `x` into a strictly sorted sequence, leaving it unchanged when
      `x` is already present (set semantics). */
  function Insert(x: string, s: seq<string>): (r: seq<string>)
    requires StrictlySorted(s)
    ensures StrictlySorted(r)
    ensures forall y :: y in r <==> y in s || y == x
  {
    if s == [] then [x]
    else if x == s[0] then s
    else if Less(x, s[0]) then
      assert forall j :: 0 <= j < |s| ==> Less(x, s[j]) by {
        forall j | 0 < j < |s| ensures Less(x, s[j]) {
          LessTransitive(x, s[0], s[j]);
        }
      }
      [x] + s
    else
      LessTotal(x, s[0]);
      var tail := Insert(x, s[1..]);
      assert forall y :: y in tail ==> Less(s[0], y);
      [s[0]] + tail
  }

  /** `sorted(set(xs))`: the distinct elements of `xs` in increasing order. */
  function SortedUnique(xs: seq<string>): (r: seq<string>)
    ensures StrictlySorted(r)
    ensures forall y :: y in r <==> y in xs
  {
    if xs == [] then []
    else
      assert forall y :: y in xs <==> y in xs[..|xs| - 1] || y == xs[|xs| - 1];
      Insert(xs[|xs| - 1], SortedUnique(xs[..|xs| - 1]))
  }

  lemma StrictlySortedDistinct(s: seq<string>)
    requires StrictlySorted(s)
    ensures Distinct(s)
  {
    forall i, j | 0 <= i < j < |s| ensures s[i] != s[j] {
      if s[i] == s[j] {
        LessIrreflexive(s[i]);
      }
    }
  }

  /** The head of a strictly sorted sequence is below every other element. */
  lemma HeadIsLeast(s: seq<string>, y: string)
    requires StrictlySorted(s) && y in s && y != s[0]
    ensures Less(s[0], y)
  {
  }

  /** A strictly sorted sequence is determined by its elements, so the result
      of `SortedUnique` does not depend on the order of its input. */
  lemma {:induction false} SortedUniqueness(s: seq<string>, t: seq<string>)
    requires StrictlySorted(s) && StrictlySorted(t)
    requires forall y :: y in s <==> y in t
    ensures s == t
    decreases |s|
  {
    if s != [] {
      assert s[0] in s;
    }
    if t != [] {
      assert t[0] in t;
    }
    if s != [] && t != [] {
      if s[0] != t[0] {
        HeadIsLeast(s, t[0]);
        HeadIsLeast(t, s[0]);
        LessTransitive(s[0], t[0], s[0]);
        LessIrreflexive(s[0]);
        assert false;
      }
      forall y | y in s[1..] ensures y in t[1..] {
        var k :| 1 <= k < |s| && s[k] == y;
        assert Less(s[0], s[k]);
        LessIrreflexive(y);
        assert y in t;
        var k2 :| 0 <= k2 < |t| && t[k2] == y;
        assert k2 != 0;
        assert t[1..][k2 - 1] == y;
      }
      forall y | y in t[1..] ensures y in s[1..] {
        var k :| 1 <= k < |t| && t[k] == y;
        assert Less(t[0], t[k]);
        LessIrreflexive(y);
        assert y in s;
        var k2 :| 0 <= k2 < |s| && s[k2] == y;
        assert k2 != 0;
        assert s[1..][k2 - 1] == y;
      }
      SortedUniqueness(s[1..], t[1..]);
    }
  }

  // ---------------------------------------------------------------------
  // Python string methods used by the engine.

  /** `sub in s` for strings. */
  predicate Contains(s: string, sub: string)
    decreases |s|
  {
    if |s| < |sub| then false
    else s[..|sub|] == sub || Contains(s[1..], sub)
  }

  lemma {:induction false} ContainsAt(s: string, sub: string, i: nat)
    requires i + |sub| <= |s| && s[i..i + |sub|] == sub
    ensures Contains(s, sub)
    decreases i
  {
    if i > 0 {
      assert s[1..][i - 1..i - 1 + |sub|] == s[i..i + |sub|];
      ContainsAt(s[1..], sub, i - 1);
    }
  }

  /** A string cannot contain a substring holding a character it lacks. */
  lemma {:induction false} ContainsNeedsEveryChar(s: string, sub: string, c: char)
    requires c in sub && c !in s
    ensures !Contains(s, sub)
    decreases |s|
  {
    if |s| >= |sub| {
      assert forall x :: x in s[..|sub|] ==> x in s;
      assert forall x :: x in s[1..] ==> x in s;
      ContainsNeedsEveryChar(s[1..], sub, c);
    }
  }

  function LowerChar(c: char): char {
    if 'A' <= c <= 'Z' then (c as int + 32) as char else c
  }

  /** `str.lower()` restricted to ASCII: 'A'..'Z' become 'a'..'z' and every
      other character is kept. */
  function Lower(s: string): (r: string)
    ensures |r| == |s|
    ensures forall i :: 0 <= i < |s| ==> r[i] == LowerChar(s[i])
  {
    seq(|s|, i requires 0 <= i < |s| => LowerChar(s[i]))
  }

  lemma LowerIdempotent(s: string)
    ensures Lower(Lower(s)) == Lower(s)
  {
  }

  /** The characters Python's `str.strip()` removes: the ASCII controls
      tab to carriage return, the separators 0x1C-0x1F, the space, and the
      Unicode spaces and line and paragraph separators. */
  predicate IsSpace(c: char) {
    || 9 <= c as int <= 13
    || 0x1C <= c as int <= 0x20
    || c as int == 0x85 || c as int == 0xA0 || c as int == 0x1680
    || 0x2000 <= c as int <= 0x200A
    || c as int == 0x2028 || c as int == 0x2029 || c as int == 0x202F
    || c as int == 0x205F || c as int == 0x3000
  }

  /** The length of the run of white space s starts with. */
  function LeadingSpace(s: string): (n: nat)
    ensures n <= |s|
    ensures forall k :: 0 <= k < n ==> IsSpace(s[k])
    ensures n == |s| || !IsSpace(s[n])
  {
    if |s| > 0 && IsSpace(s[0]) then 1 + LeadingSpace(s[1..]) else 0
  }

  /** The length of the run of white space s ends with. */
  function TrailingSpace(s: string): (n: nat)
    ensures n <= |s|
    ensures forall k :: |s| - n <= k < |s| ==> IsSpace(s[k])
    ensures n == |s| || !IsSpace(s[|s| - n - 1])
  {
    if |s| > 0 && IsSpace(s[|s| - 1]) then 1 + TrailingSpace(s[..|s| - 1]) else 0
  }

  /** `str.strip()`: drops leading and trailing whitespace. */
  function Strip(s: string): (r: string)
    ensures |r| <= |s|
    ensures r == [] || (!IsSpace(r[0]) && !IsSpace(r[|r| - 1]))
    ensures (s == [] || (!IsSpace(s[0]) && !IsSpace(s[|s| - 1]))) ==> r == s
    // r is what is left of s once its leading run of white space (of length
    // i) and its trailing run are removed.
    ensures var i := LeadingSpace(s);
      && i + |r| <= |s| && r == s[i..i + |r|]
      && (forall k :: 0 <= k < i ==> IsSpace(s[k]))
      && (forall k :: i + |r| <= k < |s| ==> IsSpace(s[k]))
  {
    var i := LeadingSpace(s);
    var j := if i == |s| then |s| else |s| - TrailingSpace(s);
    assert i <= j by {
      if i < |s| {
        assert !IsSpace(s[i]);
      }
    }
    s[i..j]
  }

  lemma StripIdempotent(s: string)
    ensures Strip(Strip(s)) == Strip(s)
  {
  }

  /** `str.split(sep)`: one more part than there are separators. */
  function Split(s: string, sep: char): (parts: seq<string>)
    ensures |parts| > 0
  {
    if s == [] then [[]]
    else
      var init := Split(s[..|s| - 1], sep);
      var c := s[|s| - 1];
      if c == sep then init + [[]]
      else init[..|init| - 1] + [init[|init| - 1] + [c]]
  }

  /** One more part than separators. */
  lemma {:induction false} SplitLength(s: string, sep: char)
    ensures |Split(s, sep)| == Count(s, sep) + 1
  {
    if s != [] {
      SplitLength(s[..|s| - 1], sep);
    }
  }

  /** No part of a split holds the separator. */
  lemma {:induction false} SplitPartsLackSeparator(s: string, sep: char, i: nat)
    requires i < |Split(s, sep)|
    ensures sep !in Split(s, sep)[i]
  {
    if s != [] {
      var init := Split(s[..|s| - 1], sep);
      var c := s[|s| - 1];
      if c != sep && i == |init| - 1 {
        SplitPartsLackSeparator(s[..|s| - 1], sep, i);
        assert Split(s, sep)[i] == init[i] + [c];
      } else if i < |init| {
        SplitPartsLackSeparator(s[..|s| - 1], sep, i);
        assert Split(s, sep)[i] == init[i];
      }
    }
  }

  /** `sep.join(parts)`. */
  function Join(parts: seq<string>, sep: char): string
    requires |parts| > 0
  {
    if |parts| == 1 then parts[0]
    else Join(parts[..|parts| - 1], sep) + [sep] + parts[|parts| - 1]
  }

  lemma {:induction false} JoinExtendLast(parts: seq<string>, sep: char, c: char)
    requires |parts| > 0
    ensures var n := |parts|;
      Join(parts[..n - 1] + [parts[n - 1] + [c]], sep) == Join(parts, sep) + [c]
  {
    var n := |parts|;
    var ext := parts[..n - 1] + [parts[n - 1] + [c]];
    if n > 1 {
      assert ext[..n - 1] == parts[..n - 1];
    }
  }

  lemma {:induction false} JoinSplit(s: string, sep: char)
    ensures Join(Split(s, sep), sep) == s
  {
    if s != [] {
      var init := Split(s[..|s| - 1], sep);
      JoinSplit(s[..|s| - 1], sep);
      var c := s[|s| - 1];
      assert s == s[..|s| - 1] + [c];
      if c == sep {
        assert (init + [[]])[..|init|] == init;
      } else {
        JoinExtendLast(init, sep, c);
      }
    }
  }

  lemma {:induction false} SplitWithoutSeparator(b: string, sep: char)
    requires sep !in b
    ensures Split(b, sep) == [b]
  {
    if b != [] {
      assert b[..|b| - 1] + [b[|b| - 1]] == b;
      SplitWithoutSeparator(b[..|b| - 1], sep);
    }
  }

  lemma {:induction false} SplitAfterSeparator(a: string, sep: char)
    ensures Split(a + [sep], sep) == Split(a, sep) + [[]]
  {
    var s := a + [sep];
    SplitLast(s, sep);
    assert s[..|s| - 1] == a;
  }

  lemma {:induction false} SplitLast(s: string, sep: char)
    requires s != []
    ensures var init := Split(s[..|s| - 1], sep);
      Split(s, sep) ==
        if s[|s| - 1] == sep then init + [[]]
        else init[..|init| - 1] + [init[|init| - 1] + [s[|s| - 1]]]
  {
  }

  lemma {:induction false} SplitExtendPrefix(pa: seq<string>, pb: seq<string>, c: char)
    requires |pb| > 0
    ensures var x := pa + pb; var m := |pb|;
      x[..|x| - 1] + [x[|x| - 1] + [c]] == pa + (pb[..m - 1] + [pb[m - 1] + [c]])
  {
  }

  lemma {:induction false} SplitAppendSeparator(x: string, sep: char)
    ensures Split(x + [sep], sep) == Split(x, sep) + [[]]
  {
    SplitLast(x + [sep], sep);
    assert (x + [sep])[..|x|] == x;
  }

  lemma {:induction false} SplitAppendOther(x: string, c: char, sep: char)
    requires c != sep
    ensures var init := Split(x, sep);
      Split(x + [c], sep) == init[..|init| - 1] + [init[|init| - 1] + [c]]
  {
    SplitLast(x + [c], sep);
    assert (x + [c])[..|x|] == x;
  }

  lemma {:induction false} SplitAtSeparatorStepSeparator(a: string, b': string, sep: char)
    requires Split(a + [sep] + b', sep) == Split(a, sep) + Split(b', sep)
    ensures Split(a + [sep] + b' + [sep], sep) == Split(a, sep) + Split(b' + [sep], sep)
  {
    SplitAppendSeparator(a + [sep] + b', sep);
    SplitAppendSeparator(b', sep);
    assert (Split(a, sep) + Split(b', sep)) + [[]] == Split(a, sep) + (Split(b', sep) + [[]]);
  }

  lemma {:induction false} SplitAtSeparatorStepOther(a: string, b': string, c: char, sep: char)
    requires c != sep
    requires Split(a + [sep] + b', sep) == Split(a, sep) + Split(b', sep)
    ensures Split(a + [sep] + b' + [c], sep) == Split(a, sep) + Split(b' + [c], sep)
  {
    SplitAppendOther(a + [sep] + b', c, sep);
    SplitAppendOther(b', c, sep);
    SplitExtendPrefix(Split(a, sep), Split(b', sep), c);
  }

  /** Splitting distributes over a separator: the parts of `a + sep + b` are
      the parts of `a` followed by the parts of `b`. */
  lemma {:induction false} SplitAtSeparator(a: string, b: string, sep: char)
    ensures Split(a + [sep] + b, sep) == Split(a, sep) + Split(b, sep)
    decreases |b|
  {
    if b == [] {
      assert a + [sep] + b == a + [sep];
      SplitAfterSeparator(a, sep);
    } else {
      var b' := b[..|b| - 1];
      var c := b[|b| - 1];
      assert b == b' + [c];
      assert a + [sep] + b == a + [sep] + b' + [c];
      SplitAtSeparator(a, b', sep);
      if c == sep {
        SplitAtSeparatorStepSeparator(a, b', sep);
      } else {
        SplitAtSeparatorStepOther(a, b', c, sep);
      }
    }
  }

  lemma {:induction false} SplitJoin(parts: seq<string>, sep: char)
    requires |parts| > 0
    requires forall i :: 0 <= i < |parts| ==> sep !in parts[i]
    ensures Split(Join(parts, sep), sep) == parts
    decreases |parts|
  {
    var last := parts[|parts| - 1];
    SplitWithoutSeparator(last, sep);
    if |parts| > 1 {
      var init := parts[..|parts| - 1];
      SplitJoin(init, sep);
      assert Join(parts, sep) == Join(init, sep) + [sep] + last;
      SplitAtSeparator(Join(init, sep), last, sep);
      assert Split(last, sep) == [last];
      assert parts == init + [last];
    } else {
      assert Join(parts, sep) == last;
    }
  }
}
