/** The pieces of the Kotlin standard library that the assertion helper
    composes: `split`, `contains`, `startsWith`, `removePrefix`,
    `toBoolean`, and the list operations `dropWhile`, `dropLastWhile`,
    `filter`, `map`, `any` and `first`. Each is written in the shape of its
    Kotlin counterpart and carries the contract the Kotlin documentation
    promises. `Join`, `IndexOfFirst` and `IndexOfLast` are not called by
    the helper: they are reference definitions its contracts are stated
    against. */
module KotlinText {

  datatype Option<+T> = None | Some(value: T)

  // ---------------------------------------------------------------------
  // Strings
  // ---------------------------------------------------------------------

  /** `s.startsWith(prefix)` */
  predicate StartsWith(s: string, prefix: string) {
    |prefix| <= |s| && s[..|prefix|] == prefix
  }

  /** `s.endsWith(suffix)` */
  predicate EndsWith(s: string, suffix: string) {
    |suffix| <= |s| && s[|s| - |suffix|..] == suffix
  }

  /** `sub` occurs in `s` starting at position `i`. */
  predicate OccursAt(s: string, sub: string, i: nat) {
    i + |sub| <= |s| && s[i..i + |sub|] == sub
  }

  /** `sub in s`, i.e. `s.contains(sub)`, searching from the left. */
  predicate Contains(s: string, sub: string)
    decreases |s|
  {
    StartsWith(s, sub) || (|s| > 0 && Contains(s[1..], sub))
  }

  /** An occurrence at any position is found by the search. */
  lemma {:induction false} OccursAtContains(s: string, sub: string, i: nat)
    requires OccursAt(s, sub, i)
    ensures Contains(s, sub)
    decreases i
  {
    if i > 0 {
      forall k | 0 <= k < |sub| ensures s[1..][i - 1 + k] == sub[k] {
        assert s[i..i + |sub|][k] == sub[k];
      }
      assert s[1..][i - 1..i - 1 + |sub|] == sub;
      OccursAtContains(s[1..], sub, i - 1);
    }
  }

  /** What the search finds is an occurrence at some position. */
  lemma {:induction false} ContainsOccurs(s: string, sub: string) returns (i: nat)
    requires Contains(s, sub)
    ensures OccursAt(s, sub, i)
    decreases |s|
  {
    if StartsWith(s, sub) {
      i := 0;
    } else {
      var j := ContainsOccurs(s[1..], sub);
      forall k | 0 <= k < |sub| ensures s[j + 1 + k] == sub[k] {
        assert s[1..][j..j + |sub|][k] == sub[k];
      }
      assert s[j + 1..j + 1 + |sub|] == sub;
      i := j + 1;
    }
  }

  /** The search agrees with the positional definition of an occurrence. */
  lemma ContainsAt(s: string, sub: string)
    ensures Contains(s, sub) <==> exists i: nat :: OccursAt(s, sub, i)
  {
    if Contains(s, sub) {
      var i := ContainsOccurs(s, sub);
    }
    forall i: nat | OccursAt(s, sub, i) ensures Contains(s, sub) {
      OccursAtContains(s, sub, i);
    }
  }

  /** `s.removePrefix(prefix)`: drops `prefix` when `s` starts with it and
      otherwise returns `s` unchanged. */
  function RemovePrefix(s: string, prefix: string): (r: string)
    ensures StartsWith(s, prefix) ==> prefix + r == s
    ensures !StartsWith(s, prefix) ==> r == s
  {
    if StartsWith(s, prefix) then s[|prefix|..] else s
  }

  /** Concatenation with one separator between consecutive parts, i.e.
      `parts.joinToString(sep)`; the inverse of `Split`, used to state its
      contract. */
  function Join(parts: seq<string>, sep: char): string
  {
    if |parts| == 0 then ""
    else if |parts| == 1 then parts[0]
    else parts[0] + [sep] + Join(parts[1..], sep)
  }

  /** `s.split(sep)` with no limit: every piece between separators is kept,
      empty ones included, so the result is never empty. */
  function Split(s: string, sep: char): (parts: seq<string>)
    ensures |parts| >= 1
    ensures forall i :: 0 <= i < |parts| ==> sep !in parts[i]
    ensures Join(parts, sep) == s
    decreases |s|
  {
    if |s| == 0 then [""]
    else
      var rest := Split(s[1..], sep);
      if s[0] == sep then
        assert Join([""] + rest, sep) == [sep] + Join(rest, sep);
        [""] + rest
      else
        var parts := [[s[0]] + rest[0]] + rest[1..];
        assert parts[1..] == rest[1..];
        assert Join(parts, sep) == [s[0]] + Join(rest, sep);
        parts
  }

  /** A piece free of separators followed by a separator splits off as the
      first part. */
  lemma {:induction false} SplitAfterPiece(w: string, t: string, sep: char)
    requires sep !in w
    ensures Split(w + [sep] + t, sep) == [w] + Split(t, sep)
    decreases |w|
  {
    if |w| == 0 {
      assert w + [sep] + t == [sep] + t;
      assert ([sep] + t)[1..] == t;
    } else {
      var s := w + [sep] + t;
      assert s[0] == w[0] && s[1..] == w[1..] + [sep] + t;
      assert forall c :: c in w[1..] ==> c in w;
      SplitAfterPiece(w[1..], t, sep);
      assert [w[0]] + w[1..] == w;
    }
  }

  /** A string free of separators splits into itself alone. */
  lemma {:induction false} SplitWithoutSeparator(w: string, sep: char)
    requires sep !in w
    ensures Split(w, sep) == [w]
    decreases |w|
  {
    if |w| > 0 {
      assert forall c :: c in w[1..] ==> c in w;
      SplitWithoutSeparator(w[1..], sep);
      assert [w[0]] + w[1..] == w;
    }
  }

  /** Round trip: splitting a join of separator-free parts gives the parts
      back. */
  lemma {:induction false} SplitJoin(parts: seq<string>, sep: char)
    requires |parts| >= 1
    requires forall i :: 0 <= i < |parts| ==> sep !in parts[i]
    ensures Split(Join(parts, sep), sep) == parts
    decreases |parts|
  {
    if |parts| == 1 {
      SplitWithoutSeparator(parts[0], sep);
    } else {
      SplitJoin(parts[1..], sep);
      SplitAfterPiece(parts[0], Join(parts[1..], sep), sep);
      assert [parts[0]] + parts[1..] == parts;
    }
  }

  /** The last part of a join is a suffix of it, preceded by a separator
      when there is more than one part. */
  lemma {:induction false} JoinLast(parts: seq<string>, sep: char)
    requires |parts| >= 1
    ensures var s, t := Join(parts, sep), parts[|parts| - 1];
            if |parts| == 1 then s == t else EndsWith(s, [sep] + t)
    decreases |parts|
  {
    if |parts| > 1 {
      JoinLast(parts[1..], sep);
      assert parts[1..][|parts| - 2] == parts[|parts| - 1];
    }
  }

  /** ASCII lower-casing of one character. */
  function LowerAscii(c: char): char {
    if 'A' <= c <= 'Z' then (c as int + 32) as char else c
  }

  /** `a.equals(b, ignoreCase = true)`, restricted to ASCII case. */
  predicate EqualsIgnoreCase(a: string, b: string) {
    |a| == |b| && forall i :: 0 <= i < |a| ==> LowerAscii(a[i]) == LowerAscii(b[i])
  }

  /** `s.toBoolean()`: true exactly when `s` is "true" up to case; every
      other string, "false" and malformed tokens alike, gives false. */
  function ToBoolean(s: string): (b: bool)
    ensures b <==> |s| == 4 && LowerAscii(s[0]) == 't' && LowerAscii(s[1]) == 'r'
                   && LowerAscii(s[2]) == 'u' && LowerAscii(s[3]) == 'e'
    ensures s == "true" || s == "TRUE" || s == "True" ==> b
    ensures s == "false" || s == "" ==> !b
  {
    EqualsIgnoreCase(s, "true")
  }

  // ---------------------------------------------------------------------
  // Lists
  // ---------------------------------------------------------------------

  /** `s.dropWhile(p)`: the suffix that starts at the first element that
      does not satisfy `p`; empty when every element satisfies it. */
  function DropWhile<T>(s: seq<T>, p: T -> bool): (r: seq<T>)
    decreases |s|
  {
    if |s| == 0 || !p(s[0]) then s else DropWhile(s[1..], p)
  }

  /** `s.dropLastWhile(p)`: the prefix that ends at the last element that
      does not satisfy `p`; empty when every element satisfies it. */
  function DropLastWhile<T>(s: seq<T>, p: T -> bool): (r: seq<T>)
    decreases |s|
  {
    if |s| == 0 || !p(s[|s| - 1]) then s else DropLastWhile(s[..|s| - 1], p)
  }

  /** `s.filter(p)`: the elements satisfying `p`, in their order. */
  function Filter<T>(s: seq<T>, p: T -> bool): (r: seq<T>)
    ensures |r| <= |s|
    ensures forall i :: 0 <= i < |r| ==> p(r[i])
    decreases |s|
  {
    if |s| == 0 then []
    else Filter(s[..|s| - 1], p) + (if p(s[|s| - 1]) then [s[|s| - 1]] else [])
  }

  /** The positions in `s` of the elements `Filter` keeps, strictly
      increasing; `FilterIndicesSource` shows they are exactly the positions
      whose element satisfies `p`, and the sources of `Filter(s, p)`. */
  function FilterIndices<T>(s: seq<T>, p: T -> bool): (ix: seq<nat>)
    ensures |ix| == |Filter(s, p)|
    ensures forall j :: 0 <= j < |ix| ==> ix[j] < |s|
    ensures forall j, k :: 0 <= j < k < |ix| ==> ix[j] < ix[k]
    decreases |s|
  {
    if |s| == 0 then []
    else
      var n := |s| - 1;
      FilterIndices(s[..n], p) + (if p(s[n]) then [n] else [])
  }

  /** Position by position, `FilterIndices` says where in `s` each element
      of `Filter(s, p)` comes from. */
  lemma {:induction false} FilterIndicesSource<T>(s: seq<T>, p: T -> bool)
    ensures var ix := FilterIndices(s, p);
            forall j :: 0 <= j < |ix| ==> Filter(s, p)[j] == s[ix[j]]
    decreases |s|
  {
    if |s| > 0 {
      var n := |s| - 1;
      var init := s[..n];
      FilterIndicesSource(init, p);
      var rest, kept, ix := FilterIndices(init, p), Filter(init, p), FilterIndices(s, p);
      assert ix == rest + (if p(s[n]) then [n] else []);
      assert Filter(s, p) == kept + (if p(s[n]) then [s[n]] else []);
      forall j | 0 <= j < |ix| ensures Filter(s, p)[j] == s[ix[j]] {
        if j < |rest| {
          assert init[rest[j]] == s[rest[j]];
        }
      }
    }
  }

  /** `FilterIndices` holds every position whose element satisfies `p` and
      no other. */
  lemma {:induction false} FilterIndicesExact<T>(s: seq<T>, p: T -> bool)
    ensures var ix := FilterIndices(s, p);
            forall k :: 0 <= k < |s| ==> (p(s[k]) <==> k in ix)
    decreases |s|
  {
    if |s| > 0 {
      var n := |s| - 1;
      var init := s[..n];
      FilterIndicesExact(init, p);
      var rest, ix := FilterIndices(init, p), FilterIndices(s, p);
      assert ix == rest + (if p(s[n]) then [n] else []);
      forall k | 0 <= k < |s| ensures p(s[k]) <==> k in ix {
        if k < n {
          assert init[k] == s[k];
        }
      }
    }
  }

  /** Filtering distributes over concatenation: nothing is reordered,
      merged or dropped across the boundary. */
  lemma {:induction false} FilterAppend<T>(a: seq<T>, b: seq<T>, p: T -> bool)
    ensures Filter(a + b, p) == Filter(a, p) + Filter(b, p)
    decreases |b|
  {
    if |b| == 0 {
      assert a + b == a;
    } else {
      var n := |b| - 1;
      var tail := if p(b[n]) then [b[n]] else [];
      assert (a + b)[..|a + b| - 1] == a + b[..n];
      assert (a + b)[|a + b| - 1] == b[n];
      FilterAppend(a, b[..n], p);
      calc {
        Filter(a + b, p);
        Filter(a + b[..n], p) + tail;
        (Filter(a, p) + Filter(b[..n], p)) + tail;
        Filter(a, p) + (Filter(b[..n], p) + tail);
        Filter(a, p) + Filter(b, p);
      }
    }
  }

  /** `Filter` keeps as many elements as there are positions of `s` whose
      element satisfies `p`. */
  lemma {:induction false} FilterCount<T>(s: seq<T>, p: T -> bool)
    ensures |Filter(s, p)| == |Positions(s, p)|
    decreases |s|
  {
    if |s| == 0 {
      assert Positions(s, p) == {};
    } else {
      var n := |s| - 1;
      FilterCount(s[..n], p);
      assert forall k :: 0 <= k < n ==> s[..n][k] == s[k];
      assert Positions(s[..n], p) == set k: nat | k < n && p(s[k]);
      if p(s[n]) {
        assert Positions(s, p) == Positions(s[..n], p) + {n};
      } else {
        assert Positions(s, p) == Positions(s[..n], p);
      }
    }
  }

  /** The positions of `s` whose element satisfies `p`. */
  ghost function Positions<T>(s: seq<T>, p: T -> bool): set<nat> {
    set k: nat | k < |s| && p(s[k])
  }

  /** `s.map(f)` */
  function Map<T, U>(s: seq<T>, f: T -> U): (r: seq<U>)
    ensures |r| == |s|
  {
    seq(|s|, i requires 0 <= i < |s| => f(s[i]))
  }

  /** `s.any(p)`, scanning from the left. */
  function Any<T>(s: seq<T>, p: T -> bool): (r: bool)
    ensures r <==> exists i :: 0 <= i < |s| && p(s[i])
    decreases |s|
  {
    if |s| == 0 then false
    else if p(s[0]) then true
    else
      assert forall i :: 1 <= i < |s| ==> s[i] == s[1..][i - 1];
      Any(s[1..], p)
  }

  /** Every entry of `xs` occurs in `ys` exactly when the elements of `xs`
      form a subset of those of `ys`. */
  lemma EveryInIffSubset<T>(xs: seq<T>, ys: seq<T>)
    ensures (forall i :: 0 <= i < |xs| ==> xs[i] in ys) <==> (set x | x in xs) <= (set y | y in ys)
  {
    var sx, sy := set x | x in xs, set y | y in ys;
    if sx <= sy {
      forall i | 0 <= i < |xs| ensures xs[i] in ys {
        assert xs[i] in sx;
      }
    }
  }

  /** `s.indexOfFirst(p)`, with `None` for Kotlin's -1. */
  function IndexOfFirst<T>(s: seq<T>, p: T -> bool): (r: Option<nat>)
    ensures r.None? ==> forall i :: 0 <= i < |s| ==> !p(s[i])
    ensures r.Some? ==> r.value < |s| && p(s[r.value])
                        && forall i :: 0 <= i < r.value ==> !p(s[i])
    decreases |s|
  {
    if |s| == 0 then None
    else if p(s[0]) then Some(0)
    else
      match IndexOfFirst(s[1..], p)
      case None => None
      case Some(i) => Some(i + 1)
  }

  /** `s.indexOfLast(p)`, with `None` for Kotlin's -1. */
  function IndexOfLast<T>(s: seq<T>, p: T -> bool): (r: Option<nat>)
    ensures r.None? ==> forall i :: 0 <= i < |s| ==> !p(s[i])
    ensures r.Some? ==> r.value < |s| && p(s[r.value])
                        && forall i :: r.value < i < |s| ==> !p(s[i])
    decreases |s|
  {
    if |s| == 0 then None
    else if p(s[|s| - 1]) then Some(|s| - 1)
    else IndexOfLast(s[..|s| - 1], p)
  }

  /** `dropWhile` of the complement of `p` starts at the first `p`-element. */
  lemma {:induction false} DropWhileFrom<T>(s: seq<T>, p: T -> bool, notP: T -> bool)
    requires forall x :: notP(x) == !p(x)
    ensures IndexOfFirst(s, p).None? ==> DropWhile(s, notP) == []
    ensures IndexOfFirst(s, p).Some? ==> DropWhile(s, notP) == s[IndexOfFirst(s, p).value..]
    decreases |s|
  {
    if |s| > 0 && !p(s[0]) {
      DropWhileFrom(s[1..], p, notP);
      if IndexOfFirst(s[1..], p).Some? {
        var i := IndexOfFirst(s[1..], p).value;
        assert s[1..][i..] == s[i + 1..];
      }
    }
  }

  /** `dropLastWhile` of the complement of `q` ends at the last `q`-element. */
  lemma {:induction false} DropLastWhileUpTo<T>(s: seq<T>, q: T -> bool, notQ: T -> bool)
    requires forall x :: notQ(x) == !q(x)
    ensures IndexOfLast(s, q).None? ==> DropLastWhile(s, notQ) == []
    ensures IndexOfLast(s, q).Some? ==> DropLastWhile(s, notQ) == s[..IndexOfLast(s, q).value + 1]
    decreases |s|
  {
    if |s| > 0 && !q(s[|s| - 1]) {
      DropLastWhileUpTo(s[..|s| - 1], q, notQ);
      if IndexOfLast(s[..|s| - 1], q).Some? {
        var j := IndexOfLast(s[..|s| - 1], q).value;
        assert s[..|s| - 1][..j + 1] == s[..j + 1];
      }
    } else if |s| > 0 {
      assert s[..|s|] == s;
    }
  }

  /** The last `q`-element of a suffix `s[i..]` is the last one of `s`, when
      that lies in the suffix. */
  lemma {:induction false} IndexOfLastInSuffix<T>(s: seq<T>, i: nat, q: T -> bool)
    requires i <= |s|
    ensures var j := IndexOfLast(s, q);
            IndexOfLast(s[i..], q) == if j.Some? && i <= j.value then Some(j.value - i) else None
    decreases |s|
  {
    if i < |s| {
      var n := |s| - 1;
      assert s[i..][|s| - i - 1] == s[n];
      if !q(s[n]) {
        assert s[i..][..|s| - i - 1] == s[..n][i..];
        IndexOfLastInSuffix(s[..n], i, q);
      }
    }
  }

  /** Dropping the leading elements that fail `p` and then the trailing
      elements that fail `q` leaves the inclusive slice from the first
      `p`-element to the last `q`-element, or nothing when either is missing
      or the last `q`-element comes first. */
  lemma {:induction false} DropBothSlice<T>(s: seq<T>, p: T -> bool, notP: T -> bool, q: T -> bool, notQ: T -> bool)
    requires forall x :: notP(x) == !p(x)
    requires forall x :: notQ(x) == !q(x)
    ensures var first, last := IndexOfFirst(s, p), IndexOfLast(s, q);
            DropLastWhile(DropWhile(s, notP), notQ) ==
              if first.Some? && last.Some? && first.value <= last.value
              then s[first.value..last.value + 1] else []
  {
    DropWhileFrom(s, p, notP);
    var first := IndexOfFirst(s, p);
    if first.Some? {
      var i := first.value;
      DropBothFrom(s, i, q, notQ);
    }
  }

  lemma {:induction false} DropBothFrom<T>(s: seq<T>, i: nat, q: T -> bool, notQ: T -> bool)
    requires i <= |s|
    requires forall x :: notQ(x) == !q(x)
    ensures var last := IndexOfLast(s, q);
            DropLastWhile(s[i..], notQ) ==
              if last.Some? && i <= last.value then s[i..last.value + 1] else []
  {
    var last := IndexOfLast(s, q);
    if last.Some? && i <= last.value {
      DropLastUpToLast(s, i, last.value, q, notQ);
    } else {
      IndexOfLastInSuffix(s, i, q);
      DropLastWhileUpTo(s[i..], q, notQ);
    }
  }

  /** Case of `DropBothFrom` where the last `q`-element, at `j`, lies in the
      suffix. */
  lemma {:induction false} DropLastUpToLast<T>(s: seq<T>, i: nat, j: nat, q: T -> bool, notQ: T -> bool)
    requires i <= j < |s|
    requires IndexOfLast(s, q) == Some(j)
    requires forall x :: notQ(x) == !q(x)
    ensures DropLastWhile(s[i..], notQ) == s[i..j + 1]
  {
    LastInSuffix(s, i, j, q);
    DropLastWhileUpTo(s[i..], q, notQ);
    SuffixPrefix(s, i, j + 1);
  }

  /** The last `q`-element of `s`, at `j`, is the last one of a suffix that
      contains it. */
  lemma {:induction false} LastInSuffix<T>(s: seq<T>, i: nat, j: nat, q: T -> bool)
    requires i <= j < |s|
    requires IndexOfLast(s, q) == Some(j)
    ensures IndexOfLast(s[i..], q) == Some(j - i)
  {
    IndexOfLastInSuffix(s, i, q);
  }

  lemma SuffixPrefix<T>(s: seq<T>, i: nat, j: nat)
    requires i <= j <= |s|
    ensures s[i..][..j - i] == s[i..j]
  {
  }

  /** `s[k..k + |sub|]` is `sub`. */
  predicate SliceAt<T(==)>(s: seq<T>, sub: seq<T>, k: nat) {
    k + |sub| <= |s| && s[k..k + |sub|] == sub
  }

  /** When something is left after dropping both ends, it opens with a
      `p`-element, closes with a `q`-element, sits in `s` after elements that
      all fail `p` and before elements that all fail `q`. */
  lemma {:induction false} DropBothEndpoints<T>(s: seq<T>, p: T -> bool, notP: T -> bool, q: T -> bool, notQ: T -> bool)
    requires forall x :: notP(x) == !p(x)
    requires forall x :: notQ(x) == !q(x)
    requires DropLastWhile(DropWhile(s, notP), notQ) != []
    ensures var b := DropLastWhile(DropWhile(s, notP), notQ);
            && p(b[0]) && q(b[|b| - 1])
            && exists k: nat :: SliceAt(s, b, k)
                             && (forall i :: 0 <= i < k ==> !p(s[i]))
                             && (forall i :: k + |b| <= i < |s| ==> !q(s[i]))
  {
    DropBothSlice(s, p, notP, q, notQ);
    var first, last := IndexOfFirst(s, p), IndexOfLast(s, q);
    SliceEndpoints(s, first.value, last.value + 1);
  }

  /** The ends of a non-empty slice. */
  lemma SliceEndpoints<T>(s: seq<T>, i: nat, j: nat)
    requires i < j <= |s|
    ensures var b := s[i..j];
            b[0] == s[i] && b[|b| - 1] == s[j - 1] && SliceAt(s, b, i) && i + |b| == j
  {
  }

  /** `s.first(p)`, with `None` where Kotlin throws
      `NoSuchElementException`. */
  function First<T>(s: seq<T>, p: T -> bool): (r: Option<T>)
    ensures r.None? <==> forall i :: 0 <= i < |s| ==> !p(s[i])
    ensures r.Some? ==> exists i :: 0 <= i < |s| && s[i] == r.value && p(s[i])
                                    && forall j :: 0 <= j < i ==> !p(s[j])
  {
    match IndexOfFirst(s, p)
    case None => None
    case Some(i) => Some(s[i])
  }
}
