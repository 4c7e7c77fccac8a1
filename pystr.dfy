/**
 * The Python `str` operations that the schema digest, the completion
 * cleanup, the shell quoting and the query guard are built from, on
 * strings as sequences of characters: `strip`, `in`, `split`, `join`,
 * `upper`, `lower`, `startswith` and `endswith`.
 */
module PyStr {
  import opened Wrappers

  /** The characters for which Python's `str.isspace()` holds; `strip()` and
      `split()` without arguments remove exactly these. */
  predicate IsSpace(c: char) {
    || c == ' '
    || '\t' <= c <= '\r'
    || '\U{1c}' <= c <= '\U{1f}'
    || c == '\U{85}' || c == '\U{a0}' || c == '\U{1680}'
    || '\U{2000}' <= c <= '\U{200a}'
    || c == '\U{2028}' || c == '\U{2029}' || c == '\U{202f}' || c == '\U{205f}' || c == '\U{3000}'
  }

  predicate IsWordChar(c: char) { !IsSpace(c) }

  predicate IsComma(c: char) { c == ',' }

  predicate NoSpace(s: string) {
    forall i :: 0 <= i < |s| ==> !IsSpace(s[i])
  }

  predicate AllSpace(s: string) {
    forall i :: 0 <= i < |s| ==> IsSpace(s[i])
  }

  predicate StartsWith(s: string, prefix: string) {
    |prefix| <= |s| && s[..|prefix|] == prefix
  }

  predicate EndsWith(s: string, suffix: string) {
    |suffix| <= |s| && s[|s| - |suffix|..] == suffix
  }

  // ---------------------------------------------------------------- strip

  /** Length of the longest prefix of `s` whose characters all satisfy `drop`. */
  function LeadingRun(s: string, drop: char -> bool): (n: nat)
    ensures n <= |s|
  {
    if |s| > 0 && drop(s[0]) then 1 + LeadingRun(s[1..], drop) else 0
  }

  /** The leading run stops at a kept character. */
  lemma {:induction false} LeadingRunStops(s: string, drop: char -> bool)
    ensures LeadingRun(s, drop) < |s| ==> !drop(s[LeadingRun(s, drop)])
    decreases |s|
  {
    if |s| > 0 && drop(s[0]) {
      LeadingRunStops(s[1..], drop);
      if LeadingRun(s, drop) < |s| {
        assert s[LeadingRun(s, drop)] == s[1..][LeadingRun(s[1..], drop)];
      }
    }
  }

  /** The leading run is dropped throughout and stops at a kept character. */
  lemma {:induction false} LeadingRunSpec(s: string, drop: char -> bool)
    ensures forall i :: 0 <= i < LeadingRun(s, drop) ==> drop(s[i])
    ensures LeadingRun(s, drop) < |s| ==> !drop(s[LeadingRun(s, drop)])
    decreases |s|
  {
    LeadingRunStops(s, drop);
    if |s| > 0 && drop(s[0]) {
      LeadingRunSpec(s[1..], drop);
      forall i | 1 <= i < LeadingRun(s, drop)
        ensures drop(s[i])
      {
        assert s[i] == s[1..][i - 1];
      }
    }
  }

  /** The leading run is the first index whose character is not dropped. */
  lemma {:induction false} LeadingRunIs(s: string, drop: char -> bool, n: nat)
    requires n <= |s|
    requires forall i :: 0 <= i < n ==> drop(s[i])
    requires n < |s| ==> !drop(s[n])
    ensures LeadingRun(s, drop) == n
  {
    LeadingRunSpec(s, drop);
    var m := LeadingRun(s, drop);
    if m < |s| {
      assert !drop(s[m]);
    }
    if n < |s| {
      assert !drop(s[n]);
    }
  }

  /** Start of the longest suffix of `s` whose characters all satisfy `drop`. */
  function TrailingRun(s: string, drop: char -> bool): (m: nat)
    ensures m <= |s|
  {
    if |s| > 0 && drop(s[|s| - 1]) then TrailingRun(s[..|s| - 1], drop) else |s|
  }

  /** The trailing run is dropped throughout and starts after a kept character. */
  lemma {:induction false} TrailingRunSpec(s: string, drop: char -> bool)
    ensures forall i :: TrailingRun(s, drop) <= i < |s| ==> drop(s[i])
    ensures TrailingRun(s, drop) > 0 ==> !drop(s[TrailingRun(s, drop) - 1])
    decreases |s|
  {
    if |s| > 0 && drop(s[|s| - 1]) {
      var p := s[..|s| - 1];
      TrailingRunSpec(p, drop);
      forall i | TrailingRun(s, drop) <= i < |p|
        ensures drop(s[i])
      {
        assert s[i] == p[i];
      }
      if TrailingRun(s, drop) > 0 {
        assert s[TrailingRun(s, drop) - 1] == p[TrailingRun(s, drop) - 1];
      }
    }
  }

  /** The trailing run is the last index after which every character is
      dropped. */
  lemma {:induction false} TrailingRunIs(s: string, drop: char -> bool, m: nat)
    requires m <= |s|
    requires forall i :: m <= i < |s| ==> drop(s[i])
    requires m > 0 ==> !drop(s[m - 1])
    ensures TrailingRun(s, drop) == m
  {
    TrailingRunSpec(s, drop);
    var k := TrailingRun(s, drop);
    if k > 0 {
      assert !drop(s[k - 1]);
    }
    if m > 0 {
      assert !drop(s[m - 1]);
    }
  }

  /** Python's `s.strip(chars)`, the set `chars` given as the predicate `drop`. */
  function StripBy(s: string, drop: char -> bool): (r: string)
    ensures |r| <= |s|
  {
    var t := s[LeadingRun(s, drop)..];
    t[..TrailingRun(t, drop)]
  }

  /** The strip cuts `s` into a dropped prefix, a core and a dropped suffix,
      and the core neither begins nor ends with a dropped character. */
  lemma {:induction false} StripByShape(s: string, drop: char -> bool)
    ensures LeadingRun(s, drop) + |StripBy(s, drop)| <= |s|
    ensures StripBy(s, drop) == s[LeadingRun(s, drop)..LeadingRun(s, drop) + |StripBy(s, drop)|]
    ensures forall i :: 0 <= i < LeadingRun(s, drop) ==> drop(s[i])
    ensures forall i :: LeadingRun(s, drop) + |StripBy(s, drop)| <= i < |s| ==> drop(s[i])
    ensures StripBy(s, drop) != [] ==> !drop(StripBy(s, drop)[0])
    ensures StripBy(s, drop) != [] ==> !drop(StripBy(s, drop)[|StripBy(s, drop)| - 1])
  {
    var L := LeadingRun(s, drop);
    var t := s[L..];
    var m := TrailingRun(t, drop);
    var r := t[..m];
    LeadingRunSpec(s, drop);
    TrailingRunSpec(t, drop);
    assert r == s[L..L + m];
    forall i | L + m <= i < |s|
      ensures drop(s[i])
    {
      assert s[i] == t[i - L];
    }
    if r != [] {
      assert m < |t| || m == |t|;
      if m == |t| {
        assert r[0] == s[L];
      }
      assert r[0] == t[0] == s[L];
      assert r[m - 1] == t[m - 1];
    }
  }

  /** The strip of `s` is determined by that shape: any cut of `s` into a
      dropped prefix, a core bounded by kept characters and a dropped
      suffix has the strip as its core. */
  lemma {:induction false} StripByUnique(s: string, drop: char -> bool, a: nat, b: nat)
    requires a <= b <= |s|
    requires forall i :: 0 <= i < a ==> drop(s[i])
    requires forall i :: b <= i < |s| ==> drop(s[i])
    requires a < b ==> !drop(s[a]) && !drop(s[b - 1])
    ensures StripBy(s, drop) == s[a..b]
  {
    if a < b {
      LeadingRunIs(s, drop, a);
      var t := s[a..];
      forall i | b - a <= i < |t|
        ensures drop(t[i])
      {
        assert t[i] == s[a + i];
      }
      assert t[b - a - 1] == s[b - 1];
      TrailingRunIs(t, drop, b - a);
    } else {
      forall i | 0 <= i < |s|
        ensures drop(s[i])
      {
        if i >= a {
          assert b <= i;
        }
      }
      LeadingRunIs(s, drop, |s|);
    }
  }

  /** A text without whitespace strips to a text without whitespace. */
  lemma {:induction false} NoSpaceStripBy(s: string, drop: char -> bool)
    requires NoSpace(s)
    ensures NoSpace(StripBy(s, drop))
  {
    StripByShape(s, drop);
    var L := LeadingRun(s, drop);
    var r := StripBy(s, drop);
    forall i | 0 <= i < |r|
      ensures !IsSpace(r[i])
    {
      assert r[i] == s[L + i];
    }
  }

  /** Python's `s.strip()`. */
  function Strip(s: string): string {
    StripBy(s, IsSpace)
  }

  /** A dropped prefix adds its length to the leading run. */
  lemma {:induction false} LeadingRunAppend(w: string, s: string, drop: char -> bool)
    requires forall i :: 0 <= i < |w| ==> drop(w[i])
    ensures LeadingRun(w + s, drop) == |w| + LeadingRun(s, drop)
    decreases |w|
  {
    if w == [] {
      assert w + s == s;
    } else {
      assert (w + s)[0] == w[0];
      assert (w + s)[1..] == w[1..] + s;
      LeadingRunAppend(w[1..], s, drop);
    }
  }

  /** Leading whitespace does not change the strip. */
  lemma {:induction false} StripSpacePrefix(w: string, s: string)
    requires AllSpace(w)
    ensures Strip(w + s) == Strip(s)
  {
    LeadingRunAppend(w, s, IsSpace);
    var L := LeadingRun(s, IsSpace);
    assert (w + s)[|w| + L..] == s[L..];
  }

  /** Stripping ignores the leading whitespace. */
  lemma {:induction false} StripAfterLead(s: string)
    ensures Strip(s) == Strip(s[LeadingRun(s, IsSpace)..])
  {
    var L := LeadingRun(s, IsSpace);
    LeadingSpaceSlice(s);
    StripSpacePrefix(s[..L], s[L..]);
    assert s[..L] + s[L..] == s;
  }

  /** A strip is its own strip. */
  lemma {:induction false} StripStripped(s: string)
    ensures Strip(Strip(s)) == Strip(s)
  {
    StripByShape(s, IsSpace);
    var r := Strip(s);
    StripByUnique(r, IsSpace, 0, |r|);
  }

  /** Cutting a prefix of a strip and stripping again is the strip of a
      longer prefix of the original text. */
  lemma {:induction false} StripOfStripPrefix(s: string, i: nat)
    requires i <= |Strip(s)|
    ensures Strip(Strip(s)[..i]) == Strip(s[..LeadingRun(s, IsSpace) + i])
  {
    StripPrefixIsSlice(s, i);
    LeadingSpaceSlice(s);
    StripSlicePrefix(s, LeadingRun(s, IsSpace), i);
  }

  /** Stripping a piece that follows leading whitespace is stripping the
      prefix that ends with it. */
  lemma {:induction false} StripSlicePrefix(s: string, L: nat, i: nat)
    requires L + i <= |s| && AllSpace(s[..L])
    ensures Strip(s[L..L + i]) == Strip(s[..L + i])
  {
    StripSpacePrefix(s[..L], s[L..L + i]);
    PrefixSplit(s, L, L + i);
  }

  lemma {:induction false} SliceOfPrefix(s: string, i: nat, a: nat, b: nat)
    requires a <= b <= i <= |s|
    ensures s[..i][a..b] == s[a..b]
  {
    assert forall t :: 0 <= t < b - a ==> s[..i][a..b][t] == s[a + t];
  }

  lemma {:induction false} PrefixSplit(s: string, a: nat, b: nat)
    requires a <= b <= |s|
    ensures s[..b] == s[..a] + s[a..b]
  {
  }

  lemma {:induction false} StripPrefixIsSlice(s: string, i: nat)
    requires i <= |Strip(s)|
    ensures LeadingRun(s, IsSpace) + i <= |s|
    ensures Strip(s)[..i] == s[LeadingRun(s, IsSpace)..LeadingRun(s, IsSpace) + i]
  {
    var L := LeadingRun(s, IsSpace);
    var r := Strip(s);
    assert r == s[L..L + |r|];
    var x, y := r[..i], s[L..L + i];
    assert forall t :: 0 <= t < i ==> x[t] == s[L + t] == y[t];
    assert x == y;
  }

  lemma {:induction false} LeadingSpaceSlice(s: string)
    ensures AllSpace(s[..LeadingRun(s, IsSpace)])
  {
    LeadingRunSpec(s, IsSpace);
    var L := LeadingRun(s, IsSpace);
    var w := s[..L];
    forall t | 0 <= t < L
      ensures IsSpace(w[t])
    {
      assert w[t] == s[t];
    }
  }

  lemma {:induction false} TrailingSpaceSlice(s: string, k: nat)
    requires k <= |s| && forall i :: k <= i < |s| ==> IsSpace(s[i])
    ensures AllSpace(s[k..])
  {
    var w := s[k..];
    forall t | 0 <= t < |w|
      ensures IsSpace(w[t])
    {
      assert w[t] == s[k + t];
    }
  }

  /** Every character of a strip is a character of the text. */
  lemma {:induction false} StripChars(s: string)
    ensures forall c :: c in Strip(s) ==> c in s
  {
    StripByShape(s, IsSpace);
    var L := LeadingRun(s, IsSpace);
    assert Strip(s) == s[L..L + |Strip(s)|];
  }

  /** A text with no blank at either end is its own strip. */
  lemma {:induction false} StripTrimmed(s: string)
    requires s != [] ==> !IsSpace(s[0]) && !IsSpace(s[|s| - 1])
    ensures Strip(s) == s
  {
    StripByUnique(s, IsSpace, 0, |s|);
    assert s[0..|s|] == s;
  }

  /** A text that starts with `k` non-blanks strips to a prefix of itself
      at least `k` long. */
  lemma {:induction false} StripKeepsLead(s: string, k: nat)
    requires 0 < k <= |s|
    requires forall i :: 0 <= i < k ==> !IsSpace(s[i])
    ensures k <= |Strip(s)| && Strip(s) == s[..|Strip(s)|]
  {
    LeadingRunIs(s, IsSpace, 0);
    StripByShape(s, IsSpace);
    var r := Strip(s);
    assert r == s[0..|r|];
    assert !IsSpace(s[k - 1]);
  }

  /** A blank text strips to nothing, and only a blank text does. */
  lemma {:induction false} StripEmptyIffBlank(s: string)
    ensures Strip(s) == [] <==> AllSpace(s)
  {
    StripByShape(s, IsSpace);
    if AllSpace(s) {
      StripByUnique(s, IsSpace, 0, 0);
    }
  }

  // ---------------------------------------------------------------- `in`

  /** `sub` occurs in `s` starting at index `i`. */
  predicate OccursAt(s: string, sub: string, i: nat) {
    i + |sub| <= |s| && s[i..i + |sub|] == sub
  }

  /** Index of the first occurrence of `sub` in `s` (Python's `s.find(sub)`,
      with `None` for -1). */
  function Find(s: string, sub: string): (r: Option<nat>)
    ensures r.Some? ==> r.value + |sub| <= |s|
    decreases |s|
  {
    if |s| < |sub| then None
    else if s[..|sub|] == sub then Some(0)
    else
      match Find(s[1..], sub)
      case None => None
      case Some(k) => Some(k + 1)
  }

  /** `find` gives the first occurrence, and -1 only when there is none. */
  lemma {:induction false} FindSpec(s: string, sub: string)
    ensures Find(s, sub).Some? ==> OccursAt(s, sub, Find(s, sub).value)
    ensures Find(s, sub).Some? ==> forall j :: 0 <= j < Find(s, sub).value ==> !OccursAt(s, sub, j)
    ensures Find(s, sub).None? ==> forall j: nat :: !OccursAt(s, sub, j)
    decreases |s|
  {
    if |s| >= |sub| {
      assert s[0..|sub|] == s[..|sub|];
      if s[..|sub|] != sub {
        OccursShift(s, sub);
        FindSpec(s[1..], sub);
      }
    }
  }

  /** Occurrences in `s[1..]` are those in `s`, one place to the left. */
  lemma {:induction false} OccursShift(s: string, sub: string)
    requires |s| > 0
    ensures forall j: nat :: 1 <= j ==> (OccursAt(s, sub, j) <==> OccursAt(s[1..], sub, j - 1))
  {
    forall j: nat | 1 <= j
      ensures OccursAt(s, sub, j) <==> OccursAt(s[1..], sub, j - 1)
    {
      if j + |sub| <= |s| {
        var x, y := s[j..j + |sub|], s[1..][j - 1..j - 1 + |sub|];
        assert forall t :: 0 <= t < |sub| ==> x[t] == y[t];
        assert x == y;
      }
    }
  }

  /** An occurrence inside a slice is an occurrence in the whole text. */
  lemma {:induction false} OccursInSlice(s: string, sub: string, a: nat, b: nat)
    requires a <= b <= |s|
    ensures forall j: nat :: OccursAt(s[a..b], sub, j) ==> OccursAt(s, sub, a + j)
  {
    forall j: nat | OccursAt(s[a..b], sub, j)
      ensures OccursAt(s, sub, a + j)
    {
      var x, y := s[a + j..a + j + |sub|], s[a..b][j..j + |sub|];
      assert forall t :: 0 <= t < |sub| ==> x[t] == y[t];
      assert x == y;
    }
  }

  /** A needle with a character the text lacks does not occur in it. */
  lemma {:induction false} MissingChar(s: string, sub: string, c: char)
    requires c in sub && c !in s
    ensures !Contains(s, sub)
  {
    FindSpec(s, sub);
    var k :| 0 <= k < |sub| && sub[k] == c;
    forall j: nat | j + |sub| <= |s|
      ensures !OccursAt(s, sub, j)
    {
      assert s[j..j + |sub|][k] == s[j + k];
    }
  }

  /** Python's `sub in s`. */
  predicate Contains(s: string, sub: string) {
    Find(s, sub).Some?
  }

  /** No occurrence in a text means no occurrence in any piece of it. */
  lemma {:induction false} NotContainsSlice(s: string, sub: string, a: nat, b: nat)
    requires a <= b <= |s|
    requires !Contains(s, sub)
    ensures !Contains(s[a..b], sub)
  {
    FindSpec(s, sub);
    FindSpec(s[a..b], sub);
    OccursInSlice(s, sub, a, b);
  }

  /** The text before the first occurrence of `sep` does not contain `sep`. */
  lemma {:induction false} BeforeFirstNotContains(s: string, sep: string, i: nat)
    requires sep != []
    requires Find(s, sep) == Some(i)
    ensures !Contains(s[..i], sep)
  {
    FindSpec(s, sep);
    FindSpec(s[..i], sep);
    OccursInSlice(s, sep, 0, i);
    assert s[..i] == s[0..i];
  }

  /** A one-character needle occurs exactly where that character stands. */
  lemma {:induction false} ContainsChar(s: string, c: char)
    ensures Contains(s, [c]) <==> c in s
  {
    FindSpec(s, [c]);
    if c in s {
      var j :| 0 <= j < |s| && s[j] == c;
      assert OccursAt(s, [c], j);
    }
    if Contains(s, [c]) {
      var j := Find(s, [c]).value;
      assert s[j] == s[j..j + 1][0];
    }
  }

  // ---------------------------------------------------------------- split / join

  /** Python's `s.split(sep)` for a non-empty separator: the pieces between
      the occurrences of `sep`, scanned left to right. */
  function Split(s: string, sep: string): (parts: seq<string>)
    requires sep != []
    ensures |parts| >= 1
    ensures Contains(s, sep) <==> |parts| >= 2
    decreases |s|
  {
    match Find(s, sep)
    case None => [s]
    case Some(i) => [s[..i]] + Split(s[i + |sep|..], sep)
  }

  /** No piece of a split holds the separator. */
  lemma {:induction false} SplitPieces(s: string, sep: string)
    requires sep != []
    ensures forall k :: 0 <= k < |Split(s, sep)| ==> !Contains(Split(s, sep)[k], sep)
    decreases |s|
  {
    match Find(s, sep)
    case None =>
    case Some(i) =>
      var rest := s[i + |sep|..];
      var parts := Split(s, sep);
      assert parts == [s[..i]] + Split(rest, sep);
      BeforeFirstNotContains(s, sep, i);
      SplitPieces(rest, sep);
      forall k | 0 <= k < |parts|
        ensures !Contains(parts[k], sep)
      {
        if k > 0 {
          assert parts[k] == Split(rest, sep)[k - 1];
        }
      }
  }

  /** Splitting at a known first occurrence: the text before it, then the
      pieces of the text after it. */
  lemma {:induction false} SplitFirst(s: string, sep: string, i: nat)
    requires sep != [] && OccursAt(s, sep, i)
    requires forall j :: 0 <= j < i ==> !OccursAt(s, sep, j)
    ensures Split(s, sep) == [s[..i]] + Split(s[i + |sep|..], sep)
  {
    FindSpec(s, sep);
    var f := Find(s, sep).value;
    assert f == i;
  }

  /** When `sep` does not start before position `k`, the first piece of
      the split keeps the first `k` characters. */
  lemma {:induction false} SplitHeadPrefix(s: string, sep: string, k: nat)
    requires sep != [] && k <= |s|
    requires forall j :: 0 <= j < k ==> !OccursAt(s, sep, j)
    ensures k <= |Split(s, sep)[0]| && Split(s, sep)[0][..k] == s[..k]
  {
    FindSpec(s, sep);
    match Find(s, sep)
    case None =>
    case Some(i) =>
      assert OccursAt(s, sep, i);
      assert Split(s, sep)[0] == s[..i];
  }

  /** Python's `sep.join(parts)`. */
  function Join(sep: string, parts: seq<string>): string {
    if |parts| == 0 then []
    else if |parts| == 1 then parts[0]
    else parts[0] + sep + Join(sep, parts[1..])
  }

  /** Joining the pieces of a split with its separator gives back the text. */
  lemma {:induction false} JoinSplit(s: string, sep: string)
    requires sep != []
    ensures Join(sep, Split(s, sep)) == s
    decreases |s|
  {
    match Find(s, sep)
    case None =>
    case Some(i) =>
      FindSpec(s, sep);
      var rest := s[i + |sep|..];
      JoinSplit(rest, sep);
      var parts := Split(s, sep);
      assert parts[1..] == Split(rest, sep);
      OccurrenceSplit(s, sep, i);
  }

  /** The text around an occurrence. */
  lemma {:induction false} OccurrenceSplit(s: string, sub: string, i: nat)
    requires OccursAt(s, sub, i)
    ensures s == s[..i] + sub + s[i + |sub|..]
  {
    assert s == s[..i] + s[i..i + |sub|] + s[i + |sub|..];
  }

  /** Every character of a piece of a split is a character of the text. */
  lemma {:induction false} SplitChars(s: string, sep: string)
    requires sep != []
    ensures forall k, c :: 0 <= k < |Split(s, sep)| && c in Split(s, sep)[k] ==> c in s
    decreases |s|
  {
    match Find(s, sep)
    case None =>
    case Some(i) =>
      var rest := s[i + |sep|..];
      SplitChars(rest, sep);
      var parts := Split(s, sep);
      assert parts[1..] == Split(rest, sep);
      forall k, c | 0 <= k < |parts| && c in parts[k]
        ensures c in s
      {
        if k == 0 {
          assert c in s[..i];
        } else {
          assert parts[k] == Split(rest, sep)[k - 1];
          assert c in rest;
        }
      }
  }

  /** Splitting a join on a one-character separator that no part contains
      gives back the parts. */
  lemma {:induction false} SplitJoin(parts: seq<string>, c: char)
    requires parts != []
    requires forall k :: 0 <= k < |parts| ==> c !in parts[k]
    ensures Split(Join([c], parts), [c]) == parts
    decreases |parts|
  {
    var s := Join([c], parts);
    if |parts| == 1 {
      ContainsChar(s, c);
    } else {
      var tail := Join([c], parts[1..]);
      var n := |parts[0]|;
      assert s == parts[0] + [c] + tail;
      assert s[n..n + 1] == [c];
      forall j | 0 <= j < n
        ensures !OccursAt(s, [c], j)
      {
        assert s[j..j + 1][0] == s[j] == parts[0][j];
      }
      SplitFirst(s, [c], n);
      assert s[..n] == parts[0];
      assert s[n + 1..] == tail;
      SplitJoin(parts[1..], c);
      assert parts == [parts[0]] + parts[1..];
    }
  }

  /** Python's `s.split()`: the maximal runs of non-whitespace characters. */
  function Words(s: string): (ws: seq<string>)
    decreases |s|
  {
    var t := s[LeadingRun(s, IsSpace)..];
    if t == [] then []
    else
      LeadingRunStops(s, IsSpace);
      assert t[0] == s[LeadingRun(s, IsSpace)];
      var n := LeadingRun(t, IsWordChar);
      [t[..n]] + Words(t[n..])
  }

  /** The first word of a text: the non-blank characters before the first
      blank. */
  lemma {:induction false} FirstWordNoSpace(t: string)
    ensures NoSpace(t[..LeadingRun(t, IsWordChar)])
  {
    LeadingRunSpec(t, IsWordChar);
    var n := LeadingRun(t, IsWordChar);
    forall i | 0 <= i < n
      ensures !IsSpace(t[..n][i])
    {
      assert t[..n][i] == t[i];
      assert IsWordChar(t[i]);
    }
  }

  /** `split()` yields non-empty words without whitespace. */
  lemma {:induction false} WordsShape(s: string)
    ensures forall k :: 0 <= k < |Words(s)| ==> Words(s)[k] != [] && NoSpace(Words(s)[k])
    decreases |s|
  {
    var t := s[LeadingRun(s, IsSpace)..];
    if t != [] {
      LeadingRunStops(s, IsSpace);
      assert t[0] == s[LeadingRun(s, IsSpace)];
      var n := LeadingRun(t, IsWordChar);
      FirstWordNoSpace(t);
      WordsShape(t[n..]);
      var ws := Words(s);
      assert ws[1..] == Words(t[n..]);
      forall k | 1 <= k < |ws|
        ensures ws[k] != [] && NoSpace(ws[k])
      {
        assert ws[k] == Words(t[n..])[k - 1];
      }
    }
  }

  /** A text that starts with a word: `split()` yields that word first. */
  lemma {:induction false} WordsCons(s: string)
    requires s != [] && !IsSpace(s[0])
    ensures LeadingRun(s, IsWordChar) > 0
    ensures Words(s) == [s[..LeadingRun(s, IsWordChar)]] + Words(s[LeadingRun(s, IsWordChar)..])
  {
    assert LeadingRun(s, IsSpace) == 0;
    assert s[0..] == s;
  }

  /** A leading blank does not change `split()`. */
  lemma {:induction false} WordsSkipSpace(s: string)
    requires s != [] && IsSpace(s[0])
    ensures Words(s) == Words(s[1..])
  {
    var L, L1 := LeadingRun(s, IsSpace), LeadingRun(s[1..], IsSpace);
    assert L == 1 + L1;
    assert s[L..] == s[1..][L1..];
    WordsLead(s);
    WordsLead(s[1..]);
  }

  /** `split()` starts after the leading whitespace. */
  lemma {:induction false} WordsLead(s: string)
    ensures Words(s) == Words(s[LeadingRun(s, IsSpace)..])
  {
    var t := s[LeadingRun(s, IsSpace)..];
    if t != [] {
      LeadingRunStops(s, IsSpace);
      assert t[0] == s[LeadingRun(s, IsSpace)];
      assert LeadingRun(t, IsSpace) == 0;
      assert t[0..] == t;
    } else {
      assert LeadingRun(t, IsSpace) == 0;
    }
  }

  /** A word followed by a blank, or by nothing, is the first word. */
  lemma {:induction false} WordsFirst(w: string, rest: string)
    requires w != [] && NoSpace(w) && (rest == [] || IsSpace(rest[0]))
    ensures Words(w + rest) == [w] + Words(rest)
  {
    var s := w + rest;
    assert s[0] == w[0];
    WordsCons(s);
    assert forall i :: 0 <= i < |w| ==> s[i] == w[i];
    assert |w| < |s| ==> s[|w|] == rest[0];
    LeadingRunIs(s, IsWordChar, |w|);
    assert s[..|w|] == w && s[|w|..] == rest;
  }

  /** A text of blanks has no words. */
  lemma {:induction false} WordsOfAllSpace(sp: string)
    requires AllSpace(sp)
    ensures Words(sp) == []
  {
    LeadingRunIs(sp, IsSpace, |sp|);
  }

  /** Leading blanks do not change `split()`. */
  lemma {:induction false} WordsSpacePrefix(sp: string, s: string)
    requires AllSpace(sp)
    ensures Words(sp + s) == Words(s)
    decreases |sp|
  {
    if sp == [] {
      assert sp + s == s;
    } else {
      assert (sp + s)[0] == sp[0];
      WordsSkipSpace(sp + s);
      assert (sp + s)[1..] == sp[1..] + s;
      WordsSpacePrefix(sp[1..], s);
    }
  }

  /** Trailing blanks do not change `split()`. */
  lemma {:induction false} WordsSpaceSuffix(s: string, sp: string)
    requires AllSpace(sp)
    ensures Words(s + sp) == Words(s)
    decreases |s|
  {
    if s == [] {
      assert s + sp == sp;
      WordsOfAllSpace(sp);
    } else if IsSpace(s[0]) {
      WordsSkipSpace(s);
      WordsSkipSpace(s + sp);
      assert (s + sp)[1..] == s[1..] + sp;
      WordsSpaceSuffix(s[1..], sp);
    } else {
      WordsCons(s);
      var n := LeadingRun(s, IsWordChar);
      WordsFirstRun(s, sp);
      WordsSpaceSuffix(s[n..], sp);
    }
  }

  /** The first word of `s` stays the first word when blanks follow `s`. */
  lemma {:induction false} WordsFirstRun(s: string, sp: string)
    requires s != [] && !IsSpace(s[0]) && AllSpace(sp)
    ensures Words(s + sp) == [s[..LeadingRun(s, IsWordChar)]] + Words(s[LeadingRun(s, IsWordChar)..] + sp)
  {
    var n := LeadingRun(s, IsWordChar);
    LeadingRunSpec(s, IsWordChar);
    var x := s + sp;
    assert x[0] == s[0];
    WordsCons(x);
    assert forall i :: 0 <= i < n ==> x[i] == s[i];
    assert n < |x| ==> IsSpace(x[n]);
    LeadingRunIs(x, IsWordChar, n);
    assert x[..n] == s[..n] && x[n..] == s[n..] + sp;
  }

  /** Stripping does not change `split()`. */
  lemma {:induction false} WordsStrip(s: string)
    ensures Words(Strip(s)) == Words(s)
  {
    WordsLead(s);
    var sp := StripTail(s);
    WordsSpaceSuffix(Strip(s), sp);
  }

  /** After the leading whitespace come the stripped text and blanks. */
  lemma {:induction false} StripTail(s: string) returns (sp: string)
    ensures s[LeadingRun(s, IsSpace)..] == Strip(s) + sp && AllSpace(sp)
  {
    var L := LeadingRun(s, IsSpace);
    var r := Strip(s);
    StripByShape(s, IsSpace);
    sp := s[L + |r|..];
    assert s[L..] == s[L..L + |r|] + sp;
    TrailingSpaceSlice(s, L + |r|);
  }

  /** A character appended to a text that ends in a word extends that word. */
  lemma {:induction false} WordsSnoc(s: string, c: char)
    requires s != [] && !IsSpace(s[|s| - 1]) && !IsSpace(c)
    ensures Words(s) != []
    ensures Words(s + [c]) == Words(s)[..|Words(s)| - 1] + [Words(s)[|Words(s)| - 1] + [c]]
    decreases |s|, 1
  {
    if IsSpace(s[0]) {
      SnocSkipSpace(s, c);
      WordsSnoc(s[1..], c);
    } else if LeadingRun(s, IsWordChar) == |s| {
      WordSnocWhole(s, c);
    } else {
      WordsSnocAfterWord(s, c);
    }
  }

  /** `WordsSnoc` for a text that starts with a word and has more after it. */
  lemma {:induction false} WordsSnocAfterWord(s: string, c: char)
    requires s != [] && !IsSpace(s[|s| - 1]) && !IsSpace(c)
    requires !IsSpace(s[0]) && LeadingRun(s, IsWordChar) < |s|
    ensures Words(s) != []
    ensures Words(s + [c]) == Words(s)[..|Words(s)| - 1] + [Words(s)[|Words(s)| - 1] + [c]]
    decreases |s|, 0
  {
    var n, rest := WordsSnocRun(s, c);
    WordsSnoc(rest, c);
    ConsSnoc(s[..n], Words(rest), Words(rest + [c]), c);
  }

  /** A leading blank is skipped both before and after appending. */
  lemma {:induction false} SnocSkipSpace(s: string, c: char)
    requires s != [] && IsSpace(s[0]) && !IsSpace(s[|s| - 1])
    ensures |s| >= 2 && !IsSpace(s[1..][|s| - 2])
    ensures Words(s) == Words(s[1..]) && Words(s + [c]) == Words(s[1..] + [c])
  {
    var x := s + [c];
    assert x[0] == s[0];
    WordsSkipSpace(s);
    WordsSkipSpace(x);
    assert x[1..] == s[1..] + [c];
    assert s[1..][|s| - 2] == s[|s| - 1];
  }

  /** The list identity behind `WordsSnoc`: extending the last word of a
      list with a first word in front. */
  lemma {:induction false} ConsSnoc(h: string, W: seq<string>, V: seq<string>, c: char)
    requires W != [] && V == W[..|W| - 1] + [W[|W| - 1] + [c]]
    ensures [h] + V == ([h] + W)[..|W|] + [([h] + W)[|W|] + [c]]
  {
    assert ([h] + W)[..|W|] == [h] + W[..|W| - 1];
    assert ([h] + W)[|W|] == W[|W| - 1];
  }

  /** A text that is one word, extended by a non-blank character. */
  lemma {:induction false} WordSnocWhole(s: string, c: char)
    requires s != [] && LeadingRun(s, IsWordChar) == |s| && !IsSpace(c)
    ensures Words(s) == [s]
    ensures Words(s + [c]) == [s + [c]]
  {
    FirstWordNoSpace(s);
    assert s[..|s|] == s;
    WordsFirst(s, []);
    assert s + [] == s;
    WordsOfAllSpace([]);
    WordsFirst(s + [c], []);
    assert s + [c] + [] == s + [c];
  }

  /** The first word of a text with more words after it is unchanged when
      a character is appended. */
  lemma {:induction false} WordsSnocRun(s: string, c: char) returns (n: nat, rest: string)
    requires s != [] && !IsSpace(s[0]) && LeadingRun(s, IsWordChar) < |s|
    ensures 0 < n < |s| && rest == s[n..] && rest[|rest| - 1] == s[|s| - 1]
    ensures Words(s) == [s[..n]] + Words(rest)
    ensures Words(s + [c]) == [s[..n]] + Words(rest + [c])
  {
    n := LeadingRun(s, IsWordChar);
    rest := s[n..];
    WordsCons(s);
    LeadingRunSpec(s, IsWordChar);
    var x := s + [c];
    assert x[0] == s[0];
    WordsCons(x);
    assert forall i :: 0 <= i < n ==> x[i] == s[i];
    assert x[n] == s[n];
    LeadingRunIs(x, IsWordChar, n);
    assert x[..n] == s[..n] && x[n..] == rest + [c];
  }

  /** Python's `' '.join(s.split())`. */
  function Collapse(s: string): string {
    Join(" ", Words(s))
  }

  /** A single-line text: its only whitespace is single spaces between
      non-blank characters. */
  predicate SingleSpaced(s: string) {
    && (forall i :: 0 <= i < |s| && IsSpace(s[i]) ==> s[i] == ' ')
    && (forall i :: 0 <= i < |s| - 1 ==> !(s[i] == ' ' && s[i + 1] == ' '))
  }

  predicate Collapsed(s: string) {
    SingleSpaced(s) && (s != [] ==> !IsSpace(s[0]) && !IsSpace(s[|s| - 1]))
  }

  // ---------------------------------------------------------------- non-blank text

  /** The non-whitespace characters of `s`, in order. */
  function NonSpace(s: string): string {
    if s == [] then []
    else (if IsSpace(s[0]) then [] else [s[0]]) + NonSpace(s[1..])
  }

  function Concat(ws: seq<string>): string {
    if ws == [] then [] else ws[0] + Concat(ws[1..])
  }

  lemma {:induction false} NonSpaceAppend(a: string, b: string)
    ensures NonSpace(a + b) == NonSpace(a) + NonSpace(b)
    decreases |a|
  {
    if a != [] {
      assert (a + b)[0] == a[0];
      assert (a + b)[1..] == a[1..] + b;
      NonSpaceAppend(a[1..], b);
    } else {
      assert a + b == b;
    }
  }

  lemma {:induction false} NonSpaceOfNoSpace(s: string)
    requires NoSpace(s)
    ensures NonSpace(s) == s
    decreases |s|
  {
    if s != [] {
      NonSpaceOfNoSpace(s[1..]);
    }
  }

  lemma {:induction false} NonSpaceOfAllSpace(s: string)
    requires AllSpace(s)
    ensures NonSpace(s) == []
    decreases |s|
  {
    if s != [] {
      NonSpaceOfAllSpace(s[1..]);
    }
  }

  /** Stripping removes whitespace only. */
  lemma {:induction false} NonSpaceStrip(s: string)
    ensures NonSpace(Strip(s)) == NonSpace(s)
  {
    NonSpaceSkipLead(s);
    NonSpaceSkipTrail(s[LeadingRun(s, IsSpace)..]);
  }

  /** Trailing whitespace adds no non-blank character. */
  lemma {:induction false} NonSpaceSkipTrail(t: string)
    ensures NonSpace(t) == NonSpace(t[..TrailingRun(t, IsSpace)])
  {
    var m := TrailingRun(t, IsSpace);
    TrailingRunSpec(t, IsSpace);
    TrailingSpaceSlice(t, m);
    assert t == t[..m] + t[m..];
    NonSpaceAppend(t[..m], t[m..]);
    NonSpaceOfAllSpace(t[m..]);
  }

  /** The multiplicity of a non-whitespace character is that in its text. */
  lemma {:induction false} NonSpaceCount(s: string, c: char)
    requires !IsSpace(c)
    ensures multiset(NonSpace(s))[c] == multiset(s)[c]
    decreases |s|
  {
    if s != [] {
      NonSpaceCount(s[1..], c);
      var h := if IsSpace(s[0]) then [] else [s[0]];
      assert s == [s[0]] + s[1..];
      assert multiset(s) == multiset([s[0]]) + multiset(s[1..]);
      assert multiset(NonSpace(s)) == multiset(h) + multiset(NonSpace(s[1..]));
    }
  }

  /** The last character of a text that ends in a non-blank character is
      the last of its non-blank characters. */
  lemma {:induction false} NonSpaceLast(s: string)
    requires s != [] && !IsSpace(s[|s| - 1])
    ensures NonSpace(s) == NonSpace(s[..|s| - 1]) + [s[|s| - 1]]
  {
    assert s == s[..|s| - 1] + [s[|s| - 1]];
    NonSpaceAppend(s[..|s| - 1], [s[|s| - 1]]);
  }

  /** `split()` drops exactly the whitespace of the text. */
  lemma {:induction false} NonSpaceWords(s: string)
    ensures NonSpace(s) == Concat(Words(s))
    decreases |s|
  {
    var L := LeadingRun(s, IsSpace);
    var t := s[L..];
    NonSpaceSkipLead(s);
    WordsLead(s);
    if t == [] {
      WordsOfAllSpace(t);
    } else {
      LeadingRunStops(s, IsSpace);
      assert t[0] == s[L];
      WordsCons(t);
      var n := LeadingRun(t, IsWordChar);
      NonSpaceFirstWord(t);
      NonSpaceWords(t[n..]);
      ConcatCons(t[..n], Words(t[n..]));
    }
  }

  lemma {:induction false} ConcatCons(w: string, ws: seq<string>)
    ensures Concat([w] + ws) == w + Concat(ws)
  {
    assert ([w] + ws)[1..] == ws;
  }

  /** Leading whitespace adds no non-blank character. */
  lemma {:induction false} NonSpaceSkipLead(s: string)
    ensures NonSpace(s) == NonSpace(s[LeadingRun(s, IsSpace)..])
  {
    var L := LeadingRun(s, IsSpace);
    assert s == s[..L] + s[L..];
    NonSpaceAppend(s[..L], s[L..]);
    LeadingSpaceSlice(s);
    NonSpaceOfAllSpace(s[..L]);
  }

  /** The first word comes out of `NonSpace` whole. */
  lemma {:induction false} NonSpaceFirstWord(t: string)
    ensures NonSpace(t) == t[..LeadingRun(t, IsWordChar)] + NonSpace(t[LeadingRun(t, IsWordChar)..])
  {
    var n := LeadingRun(t, IsWordChar);
    FirstWordNoSpace(t);
    assert t == t[..n] + t[n..];
    NonSpaceAppend(t[..n], t[n..]);
    NonSpaceOfNoSpace(t[..n]);
  }

  /** Joining blank-free words with single spaces keeps their characters. */
  lemma {:induction false} NonSpaceJoin(ws: seq<string>)
    requires forall k :: 0 <= k < |ws| ==> NoSpace(ws[k])
    ensures NonSpace(Join(" ", ws)) == Concat(ws)
    decreases |ws|
  {
    if |ws| == 1 {
      NonSpaceOfNoSpace(ws[0]);
      assert Concat(ws[1..]) == [];
    } else if |ws| > 1 {
      NonSpaceJoin(ws[1..]);
      NonSpaceAppend(ws[0] + " ", Join(" ", ws[1..]));
      NonSpaceAppend(ws[0], " ");
      NonSpaceOfNoSpace(ws[0]);
      assert NonSpace(" ") == [];
    }
  }

  /** Joining non-empty blank-free words with single spaces gives a
      single-line text that begins with the first word. */
  lemma {:induction false} JoinCollapsed(ws: seq<string>)
    requires forall k :: 0 <= k < |ws| ==> ws[k] != [] && NoSpace(ws[k])
    ensures Collapsed(Join(" ", ws))
    ensures ws != [] ==> StartsWith(Join(" ", ws), ws[0])
    decreases |ws|
  {
    if |ws| > 1 {
      JoinCollapsed(ws[1..]);
      var w := ws[0];
      var j := Join(" ", ws[1..]);
      var s := w + " " + j;
      assert s == Join(" ", ws);
      assert j[0] == ws[1][0];
      forall i | 0 <= i < |s| && IsSpace(s[i])
        ensures s[i] == ' '
      {
        if i > |w| {
          assert s[i] == j[i - |w| - 1];
        }
      }
      forall i | 0 <= i < |s| - 1
        ensures !(s[i] == ' ' && s[i + 1] == ' ')
      {
        if i > |w| {
          assert s[i] == j[i - |w| - 1] && s[i + 1] == j[i - |w|];
        }
      }
    }
  }

  /** `' '.join(s.split())` is a single-line text with the non-blank
      characters of `s`, in order. */
  lemma {:induction false} CollapseMeaning(s: string)
    ensures Collapsed(Collapse(s))
    ensures NonSpace(Collapse(s)) == NonSpace(s)
    ensures Words(Collapse(s)) == Words(s)
  {
    WordsShape(s);
    JoinCollapsed(Words(s));
    NonSpaceJoin(Words(s));
    NonSpaceWords(s);
    WordsJoin(Words(s));
  }

  /** Splitting words joined by single spaces gives back the words. */
  lemma {:induction false} WordsJoin(ws: seq<string>)
    requires forall k :: 0 <= k < |ws| ==> ws[k] != [] && NoSpace(ws[k])
    ensures Words(Join(" ", ws)) == ws
    decreases |ws|
  {
    if |ws| == 0 {
      WordsOfAllSpace([]);
    } else if |ws| == 1 {
      WordsFirst(ws[0], []);
      WordsOfAllSpace([]);
      assert ws[0] + [] == ws[0];
    } else {
      var j := Join(" ", ws[1..]);
      assert Join(" ", ws) == ws[0] + (" " + j);
      WordsFirst(ws[0], " " + j);
      WordsSkipSpace(" " + j);
      assert (" " + j)[1..] == j;
      WordsJoin(ws[1..]);
    }
  }

  /** The collapsed text is the only single-line text with the words of
      `s`: collapsing is determined by the words alone. */
  lemma {:induction false} CollapseUnique(s: string, x: string)
    requires Collapsed(x) && Words(x) == Words(s)
    ensures x == Collapse(s)
  {
    CollapseCollapsed(x);
  }

  /** A non-blank character appended to a text that ends in a non-blank
      one joins its last word. */
  lemma {:induction false} CollapseSnoc(s: string, c: char)
    requires s != [] && !IsSpace(s[|s| - 1]) && !IsSpace(c)
    ensures Collapse(s + [c]) == Collapse(s) + [c]
  {
    WordsSnoc(s, c);
    JoinSnoc(Words(s), c);
  }

  /** Joining, with the last part extended by `c`, appends `c`. */
  lemma {:induction false} JoinSnoc(ws: seq<string>, c: char)
    requires ws != []
    ensures Join(" ", ws[..|ws| - 1] + [ws[|ws| - 1] + [c]]) == Join(" ", ws) + [c]
    decreases |ws|
  {
    var v := ws[..|ws| - 1] + [ws[|ws| - 1] + [c]];
    if |ws| > 1 {
      var t := ws[1..];
      assert v[0] == ws[0];
      assert v[1..] == t[..|t| - 1] + [t[|t| - 1] + [c]];
      JoinSnoc(t, c);
    }
  }

  /** A text whose first `k` characters are non-blank keeps them in front
      when its whitespace is collapsed. */
  lemma {:induction false} CollapseKeepsLead(s: string, k: nat)
    requires 0 < k <= |s|
    requires forall i :: 0 <= i < k ==> !IsSpace(s[i])
    ensures StartsWith(Collapse(s), s[..k])
  {
    WordsCons(s);
    LeadingRunStops(s, IsWordChar);
    var n := LeadingRun(s, IsWordChar);
    assert n < k ==> IsWordChar(s[n]);
    var ws := Words(s);
    assert ws[0] == s[..n];
    WordsShape(s);
    JoinCollapsed(ws);
  }

  /** A text that ends in a non-blank character still ends in it once its
      whitespace is collapsed. */
  lemma {:induction false} CollapseKeepsLast(s: string)
    requires s != [] && !IsSpace(s[|s| - 1])
    ensures Collapse(s) != []
    ensures Collapse(s)[|Collapse(s)| - 1] == s[|s| - 1]
  {
    var x := Collapse(s);
    CollapseMeaning(s);
    NonSpaceLast(s);
    var ns := NonSpace(s);
    assert ns != [] && ns[|ns| - 1] == s[|s| - 1];
    assert NonSpace([]) == [];
    assert x != [];
    NonSpaceLast(x);
    assert ns[|ns| - 1] == x[|x| - 1];
  }

  /** Collapsing whitespace changes nothing in a text that is already a
      single line of single-spaced words. */
  lemma {:induction false} CollapseCollapsed(s: string)
    requires Collapsed(s)
    ensures Collapse(s) == s
    decreases |s|
  {
    if s != [] {
      var n := CollapsedFirstWord(s);
      if n < |s| {
        var rest := s[n + 1..];
        calc {
          Collapse(s);
          Join(" ", [s[..n]] + Words(rest));
          { JoinCons(" ", s[..n], Words(rest)); }
          s[..n] + " " + Join(" ", Words(rest));
          { CollapseCollapsed(rest); }
          s[..n] + " " + rest;
          { SpaceSplit(s, n); }
          s;
        }
      } else {
        assert Collapse(s) == Join(" ", [s]);
      }
    }
  }

  /** The text around a space. */
  lemma {:induction false} SpaceSplit(s: string, n: nat)
    requires n < |s| && s[n] == ' '
    ensures s == s[..n] + " " + s[n + 1..]
  {
    assert s == s[..n] + [s[n]] + s[n + 1..];
  }

  /** A single-line text is its first word, then, if anything follows, a
      space and a single-line text that begins with a word. */
  lemma {:induction false} CollapsedFirstWord(s: string) returns (n: nat)
    requires Collapsed(s) && s != []
    ensures 0 < n <= |s|
    ensures n == |s| ==> Words(s) == [s]
    ensures n < |s| ==> n + 1 < |s| && s[n] == ' ' && Collapsed(s[n + 1..])
    ensures n < |s| ==> Words(s) == [s[..n]] + Words(s[n + 1..]) && Words(s[n + 1..]) != []
  {
    WordsCons(s);
    LeadingRunStops(s, IsWordChar);
    n := LeadingRun(s, IsWordChar);
    if n < |s| {
      assert s[n] == ' ';
      assert !IsSpace(s[n + 1]);
      var rest := s[n + 1..];
      assert s[n..][1..] == rest;
      WordsSkipSpace(s[n..]);
      CollapsedSuffix(s, n + 1);
      WordsCons(rest);
    } else {
      assert Words(s[n..]) == [];
      assert s[..n] == s;
    }
  }

  /** A suffix of a single-line text that starts at a non-blank is one too. */
  lemma {:induction false} CollapsedSuffix(s: string, k: nat)
    requires Collapsed(s) && k < |s| && !IsSpace(s[k])
    ensures Collapsed(s[k..])
  {
    var t := s[k..];
    assert forall i :: 0 <= i < |t| ==> t[i] == s[k + i];
  }

  /** Joining a first part onto a non-empty list puts the separator between. */
  lemma {:induction false} JoinCons(sep: string, w: string, ws: seq<string>)
    requires ws != []
    ensures Join(sep, [w] + ws) == w + sep + Join(sep, ws)
  {
    assert ([w] + ws)[1..] == ws;
  }

  // ---------------------------------------------------------------- case

  /** Python's `upper()` on one character, restricted to ASCII letters. */
  function UpperChar(c: char): char {
    if 'a' <= c <= 'z' then (c as int - 32) as char else c
  }

  /** Python's `lower()` on one character, restricted to ASCII letters. */
  function LowerChar(c: char): char {
    if 'A' <= c <= 'Z' then (c as int + 32) as char else c
  }

  function Upper(s: string): string {
    seq(|s|, i requires 0 <= i < |s| => UpperChar(s[i]))
  }

  function Lower(s: string): string {
    seq(|s|, i requires 0 <= i < |s| => LowerChar(s[i]))
  }

  /** Two texts that differ at most in the case of their letters. */
  predicate SameUpToCase(a: string, b: string) {
    |a| == |b| && forall i :: 0 <= i < |a| ==> UpperChar(a[i]) == UpperChar(b[i])
  }

  /** Changing case never turns a blank into a non-blank or back. */
  lemma {:induction false} SameUpToCaseSpaces(a: string, b: string, i: nat)
    requires SameUpToCase(a, b) && i < |a|
    ensures IsSpace(a[i]) <==> IsSpace(b[i])
  {
    assert UpperChar(a[i]) == UpperChar(b[i]);
  }

  /** Texts equal up to case strip at the same positions. */
  lemma {:induction false} StripSameUpToCase(a: string, b: string)
    requires SameUpToCase(a, b)
    ensures SameUpToCase(Strip(a), Strip(b))
  {
    StripByShape(a, IsSpace);
    var L := LeadingRun(a, IsSpace);
    StripAtSamePlaces(a, b);
    SameUpToCaseSlice(a, b, L, L + |Strip(a)|);
  }

  lemma {:induction false} StripAtSamePlaces(a: string, b: string)
    requires SameUpToCase(a, b)
    ensures LeadingRun(a, IsSpace) + |Strip(a)| <= |b|
    ensures Strip(b) == b[LeadingRun(a, IsSpace)..LeadingRun(a, IsSpace) + |Strip(a)|]
  {
    StripByShape(a, IsSpace);
    var r := Strip(a);
    var L := LeadingRun(a, IsSpace);
    var M := L + |r|;
    forall i | 0 <= i < L || M <= i < |b|
      ensures IsSpace(b[i])
    {
      SameUpToCaseSpaces(a, b, i);
    }
    if L < M {
      assert r[0] == a[L] && r[|r| - 1] == a[M - 1];
      SameUpToCaseSpaces(a, b, L);
      SameUpToCaseSpaces(a, b, M - 1);
    }
    StripByUnique(b, IsSpace, L, M);
  }

  /** Equal slices up to case of texts equal up to case. */
  lemma {:induction false} SameUpToCaseSlice(a: string, b: string, x: nat, y: nat)
    requires SameUpToCase(a, b) && x <= y <= |a|
    ensures SameUpToCase(a[x..y], b[x..y])
  {
    forall i | 0 <= i < y - x
      ensures UpperChar(a[x..y][i]) == UpperChar(b[x..y][i])
    {
      assert a[x..y][i] == a[x + i] && b[x..y][i] == b[x + i];
    }
  }
}
