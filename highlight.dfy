/** The phrase highlighter of src/components/HighlightedText.tsx: the
    phrases are sorted longest first, each is scanned for literal,
    ASCII case-insensitive occurrences, an occurrence is accepted when it
    meets no accepted one, the accepted matches are sorted by position and
    the text is cut into plain and highlighted parts. */
module Highlight {
  import opened Wrappers

  /** An accepted match: the half-open range `[start, end)` of the text and
      the text found there. */
  datatype Match = Match(start: nat, end: nat, phrase: string)

  /** One rendered part: a plain string or a highlighted span. */
  datatype Part = Part(text: string, highlighted: bool)

  // ---------------------------------------------------------------------
  // The phrase list
  // ---------------------------------------------------------------------

  const DefaultHighlights: seq<string> := [
    "Shoaib Khan", "content creator", "director", "writer", "video editor",
    "entrepreneurial", "entrepreneur", "2017", "video editing", "content creation",
    "entrepreneurship", "Edventure Park", "BioReform", "Hyderabad Hustlers", "50+",
    "entrepreneurs", "1M+", "audiences", "The Baigan Vines"]

  /** `customHighlights || defaultHighlights`: any supplied array is truthy,
      the empty one included, so only an absent list falls back. */
  function ChooseHighlights(custom: Option<seq<string>>): seq<string> {
    custom.GetOr(DefaultHighlights)
  }

  predicate NonEmptyPhrases(ps: seq<string>) {
    forall k :: 0 <= k < |ps| ==> |ps[k]| >= 1
  }

  /** The list chosen is the supplied one whenever there is one. */
  lemma ChooseHighlightsCases(custom: Option<seq<string>>)
    ensures custom == Some([]) ==> ChooseHighlights(custom) == []
    ensures custom.None? ==> |ChooseHighlights(custom)| == 19 && NonEmptyPhrases(ChooseHighlights(custom))
    ensures custom.Some? ==> ChooseHighlights(custom) == custom.value
  {
  }

  // ---------------------------------------------------------------------
  // Literal, case-insensitive occurrences (`new RegExp(escaped, 'gi')`)
  // ---------------------------------------------------------------------

  /** ASCII case folding: upper-case letters to lower case. */
  function Fold(c: char): char {
    if 'A' <= c <= 'Z' then (c as int + 32) as char else c
  }

  predicate SameFold(a: string, b: string) {
    |a| == |b| && forall k :: 0 <= k < |a| ==> Fold(a[k]) == Fold(b[k])
  }

  /** The escaped phrase matches at `i`: the text there equals the phrase
      up to case, character by character. */
  predicate OccursAt(text: string, p: string, i: nat) {
    i + |p| <= |text| && forall k :: 0 <= k < |p| ==> Fold(text[i + k]) == Fold(p[k])
  }

  /** `regex.exec(text)` with `lastIndex == from`: the first position at
      or after `from` where the phrase occurs, or None (null). */
  function NextOccurrence(text: string, p: string, from: nat): Option<nat>
    decreases |text| - from
  {
    if from + |p| > |text| then None
    else if OccursAt(text, p, from) then Some(from)
    else NextOccurrence(text, p, from + 1)
  }

  /** `exec` finds the leftmost occurrence at or after `from`, and null
      exactly when there is none. */
  lemma {:induction false} NextOccurrenceLeftmost(text: string, p: string, from: nat)
    ensures var r := NextOccurrence(text, p, from);
      && (r.Some? ==> from <= r.value && OccursAt(text, p, r.value))
      && (r.Some? ==> forall j: nat :: from <= j < r.value ==> !OccursAt(text, p, j))
      && (r.None? ==> forall j: nat :: from <= j ==> !OccursAt(text, p, j))
    decreases |text| - from
  {
    if from + |p| <= |text| && !OccursAt(text, p, from) {
      NextOccurrenceLeftmost(text, p, from + 1);
    }
  }

  /** The global scan of `p` started at `from` reaches the occurrence at
      `i`: each step resumes right after the occurrence it found. */
  predicate Found(text: string, p: string, from: nat, i: nat)
    requires |p| >= 1
    decreases |text| - from
  {
    if from + |p| > |text| then false
    else if OccursAt(text, p, from) then from == i || Found(text, p, from + |p|, i)
    else Found(text, p, from + 1, i)
  }

  /** What the scan reaches is an occurrence, and the first occurrence is
      always reached. */
  lemma {:induction false} FoundOccurs(text: string, p: string, from: nat, i: nat)
    requires |p| >= 1
    ensures Found(text, p, from, i) ==> from <= i && OccursAt(text, p, i)
    ensures OccursAt(text, p, i) && (forall j: nat :: from <= j < i ==> !OccursAt(text, p, j)) && from <= i ==>
              Found(text, p, from, i)
    decreases |text| - from
  {
    if from + |p| <= |text| {
      if OccursAt(text, p, from) {
        FoundOccurs(text, p, from + |p|, i);
      } else {
        FoundOccurs(text, p, from + 1, i);
      }
    }
  }

  // ---------------------------------------------------------------------
  // The overlap test and the scan
  // ---------------------------------------------------------------------

  /** The source's two-clause test of the candidate `[s, e)` against `m`. */
  predicate Overlaps(s: nat, e: nat, m: Match) {
    (s >= m.start && s < m.end) || (e > m.start && s < m.start)
  }

  /** The ranges `[s, e)` and `[m.start, m.end)` share a position. */
  predicate Intersects(s: int, e: int, m: Match) {
    s < m.end && m.start < e
  }

  /** For a non-empty candidate and a proper range the two-clause test is
      exactly range intersection. */
  lemma OverlapsIsIntersection(s: nat, e: nat, m: Match)
    requires s < e && m.start <= m.end
    ensures Overlaps(s, e, m) <==> Intersects(s, e, m)
  {
  }

  /** `matches.some(m => ...)`. */
  predicate OverlapsAny(s: nat, e: nat, ms: seq<Match>) {
    exists k :: 0 <= k < |ms| && Overlaps(s, e, ms[k])
  }

  /** The body of the `while` loop for an occurrence at `i`. */
  function Accept(text: string, p: string, i: nat, acc: seq<Match>): seq<Match>
    requires i + |p| <= |text|
  {
    if OverlapsAny(i, i + |p|, acc) then acc
    else acc + [Match(i, i + |p|, text[i..i + |p|])]
  }

  /** The `while` loop over `regex.exec` for one phrase, from `lastIndex
      == from`: the scan resumes after every occurrence, accepted or not. */
  function ScanPhrase(text: string, p: string, from: nat, acc: seq<Match>): seq<Match>
    requires |p| >= 1
    decreases |text| - from
  {
    if from + |p| > |text| then acc
    else if OccursAt(text, p, from) then ScanPhrase(text, p, from + |p|, Accept(text, p, from, acc))
    else ScanPhrase(text, p, from + 1, acc)
  }

  /** When `exec` from `from` returns null, the scan ends with `acc`. */
  lemma {:induction false} ScanPhraseEnd(text: string, p: string, from: nat, acc: seq<Match>)
    requires |p| >= 1 && NextOccurrence(text, p, from).None?
    ensures ScanPhrase(text, p, from, acc) == acc
    decreases |text| - from
  {
    if from + |p| <= |text| {
      ScanPhraseEnd(text, p, from + 1, acc);
    }
  }

  /** When `exec` from `from` returns the occurrence at `i`, the scan
      applies the overlap test there and resumes right after it. */
  lemma {:induction false} ScanPhraseJump(text: string, p: string, from: nat, acc: seq<Match>, i: nat,
                                          to: nat, acc': seq<Match>)
    requires |p| >= 1 && NextOccurrence(text, p, from) == Some(i) && to == i + |p|
    requires to <= |text| ==> acc' == Accept(text, p, i, acc)
    ensures from <= i && to <= |text|
    ensures ScanPhrase(text, p, from, acc) == ScanPhrase(text, p, to, acc')
    decreases |text| - from
  {
    if !OccursAt(text, p, from) {
      ScanPhraseJump(text, p, from + 1, acc, i, to, acc');
    }
  }

  /** The occurrence `exec` returns lies inside the text. */
  lemma {:induction false} NextOccurrenceFits(text: string, p: string, from: nat, i: nat)
    requires NextOccurrence(text, p, from) == Some(i)
    ensures from <= i && i + |p| <= |text|
    decreases |text| - from
  {
    if !OccursAt(text, p, from) {
      NextOccurrenceFits(text, p, from + 1, i);
    }
  }

  /** The `forEach` over the sorted phrases. */
  function ScanAll(text: string, ps: seq<string>, acc: seq<Match>): seq<Match>
    requires NonEmptyPhrases(ps)
  {
    if ps == [] then acc else ScanAll(text, ps[1..], ScanPhrase(text, ps[0], 0, acc))
  }

  function Len(m: Match): int {
    m.end - m.start
  }

  /** A match lies inside the text, is not empty and records the text it
      covers, in the text's own casing. */
  predicate WellFormed(text: string, m: Match) {
    m.start < m.end <= |text| && m.phrase == text[m.start..m.end]
  }

  predicate Disjoint(a: Match, b: Match) {
    a.end <= b.start || b.end <= a.start
  }

  /** Well-formed, pairwise disjoint matches. */
  predicate Good(text: string, ms: seq<Match>) {
    && (forall k :: 0 <= k < |ms| ==> WellFormed(text, ms[k]))
    && (forall k, l :: 0 <= k < l < |ms| ==> Disjoint(ms[k], ms[l]))
  }

  predicate MinLength(ms: seq<Match>, n: int) {
    forall k :: 0 <= k < |ms| ==> Len(ms[k]) >= n
  }

  /** `r` keeps the matches of `acc` at their places and may add more. */
  predicate Extends(acc: seq<Match>, r: seq<Match>) {
    |acc| <= |r| && forall k :: 0 <= k < |acc| ==> r[k] == acc[k]
  }

  /** Some match of `ms` at least `n` long meets `[s, e)`. */
  predicate Covered(ms: seq<Match>, s: int, e: int, n: int) {
    exists k :: 0 <= k < |ms| && Intersects(s, e, ms[k]) && Len(ms[k]) >= n
  }

  /** One step of the loop keeps the accepted matches disjoint and only
      appends, and what it appends is the occurrence. */
  lemma AcceptGood(text: string, p: string, i: nat, acc: seq<Match>)
    requires |p| >= 1 && OccursAt(text, p, i) && Good(text, acc)
    ensures var r := Accept(text, p, i, acc);
      && Good(text, r) && Extends(acc, r)
      && (forall k :: |acc| <= k < |r| ==> r[k].start == i && Len(r[k]) == |p|)
      && (OverlapsAny(i, i + |p|, acc) <==> r == acc)
  {
    if !OverlapsAny(i, i + |p|, acc) {
      forall k | 0 <= k < |acc| ensures Disjoint(acc[k], Match(i, i + |p|, text[i..i + |p|])) {
        OverlapsIsIntersection(i, i + |p|, acc[k]);
      }
    }
  }

  /** Scanning one phrase keeps the matches well formed and disjoint,
      never drops an accepted match, and adds only occurrences of the
      phrase. */
  lemma {:induction false} ScanPhraseSound(text: string, p: string, from: nat, acc: seq<Match>)
    requires |p| >= 1 && Good(text, acc)
    ensures var r := ScanPhrase(text, p, from, acc);
      && Good(text, r) && Extends(acc, r)
      && (forall k :: |acc| <= k < |r| ==> OccursAt(text, p, r[k].start) && Len(r[k]) == |p|)
    decreases |text| - from
  {
    if from + |p| > |text| {
    } else if OccursAt(text, p, from) {
      var acc' := Accept(text, p, from, acc);
      AcceptGood(text, p, from, acc);
      ScanPhraseSound(text, p, from + |p|, acc');
      var r := ScanPhrase(text, p, from + |p|, acc');
      forall k | |acc| <= k < |r| ensures OccursAt(text, p, r[k].start) && Len(r[k]) == |p| {
        if k < |acc'| {
          assert r[k] == acc'[k];
        }
      }
    } else {
      ScanPhraseSound(text, p, from + 1, acc);
    }
  }

  /** A match that meets a range stays when matches are only added. */
  lemma CoveredExtends(acc: seq<Match>, r: seq<Match>, s: int, e: int, n: int)
    requires Covered(acc, s, e, n) && Extends(acc, r)
    ensures Covered(r, s, e, n)
  {
    var k :| 0 <= k < |acc| && Intersects(s, e, acc[k]) && Len(acc[k]) >= n;
    assert r[k] == acc[k];
  }

  /** After the overlap test at an occurrence, some match at least as long
      as the phrase meets it: the rejecting one or the occurrence itself. */
  lemma AcceptCovers(text: string, p: string, i: nat, acc: seq<Match>)
    requires |p| >= 1 && OccursAt(text, p, i) && MinLength(acc, |p|)
    ensures Covered(Accept(text, p, i, acc), i, i + |p|, |p|)
  {
    if OverlapsAny(i, i + |p|, acc) {
      var k :| 0 <= k < |acc| && Overlaps(i, i + |p|, acc[k]);
      OverlapsIsIntersection(i, i + |p|, acc[k]);
    } else {
      var r := Accept(text, p, i, acc);
      assert r[|acc|] == Match(i, i + |p|, text[i..i + |p|]);
    }
  }

  /** The occurrence the scan stands on is met once the scan is over. */
  lemma CoversAtOccurrence(text: string, p: string, i: nat, acc: seq<Match>)
    requires |p| >= 1 && Good(text, acc) && MinLength(acc, |p|) && OccursAt(text, p, i)
    ensures Covered(ScanPhrase(text, p, i + |p|, Accept(text, p, i, acc)), i, i + |p|, |p|)
  {
    var acc' := Accept(text, p, i, acc);
    AcceptStaysGood(text, p, i, acc);
    AcceptCovers(text, p, i, acc);
    var r := ScanPhrase(text, p, i + |p|, acc');
    ScanExtends(text, p, i + |p|, acc');
    CoveredExtends(acc', r, i, i + |p|, |p|);
  }

  // AcceptStaysGood and ScanExtends each hand on one conclusion of
  // AcceptGood and ScanPhraseSound. Calling the full lemmas from
  // CoversAtOccurrence puts all their conclusions in one proof context,
  // and that makes the proof's cost swing by an order of magnitude
  // between solver seeds.
  lemma AcceptStaysGood(text: string, p: string, i: nat, acc: seq<Match>)
    requires |p| >= 1 && OccursAt(text, p, i) && Good(text, acc)
    ensures Good(text, Accept(text, p, i, acc))
  {
    AcceptGood(text, p, i, acc);
  }

  lemma ScanExtends(text: string, p: string, from: nat, acc: seq<Match>)
    requires |p| >= 1 && Good(text, acc)
    ensures Extends(acc, ScanPhrase(text, p, from, acc))
  {
    ScanPhraseSound(text, p, from, acc);
  }

  /** The overlap test keeps the matches disjoint and at least as long as
      the phrase: the two conclusions of AcceptGood that the covering
      induction below carries. */
  lemma AcceptKeeps(text: string, p: string, i: nat, acc: seq<Match>)
    requires |p| >= 1 && Good(text, acc) && MinLength(acc, |p|) && OccursAt(text, p, i)
    ensures Good(text, Accept(text, p, i, acc)) && MinLength(Accept(text, p, i, acc), |p|)
  {
    AcceptGood(text, p, i, acc);
  }

  /** Every occurrence the scan of `p` reaches ends up met by an accepted
      match at least as long as `p`: either it is accepted itself, or an
      earlier accepted match (all at least `|p|` long) rejected it. */
  lemma {:induction false} ScanPhraseCovers(text: string, p: string, from: nat, acc: seq<Match>, i: nat)
    requires |p| >= 1 && Good(text, acc) && MinLength(acc, |p|) && Found(text, p, from, i)
    ensures Covered(ScanPhrase(text, p, from, acc), i, i + |p|, |p|)
    decreases |text| - from
  {
    if !OccursAt(text, p, from) {
      ScanPhraseCovers(text, p, from + 1, acc, i);
    } else if from == i {
      CoversAtOccurrence(text, p, i, acc);
    } else {
      AcceptKeeps(text, p, from, acc);
      ScanPhraseCovers(text, p, from + |p|, Accept(text, p, from, acc), i);
    }
  }

  /** Scanning all phrases keeps the matches well formed and disjoint,
      never drops one, and adds only occurrences of the phrases. */
  lemma {:induction false} ScanAllSound(text: string, ps: seq<string>, acc: seq<Match>)
    requires NonEmptyPhrases(ps) && Good(text, acc)
    ensures var r := ScanAll(text, ps, acc);
      && Good(text, r) && Extends(acc, r)
      && (forall k :: |acc| <= k < |r| ==>
            exists j :: 0 <= j < |ps| && OccursAt(text, ps[j], r[k].start) && Len(r[k]) == |ps[j]|)
  {
    if ps != [] {
      var acc1 := ScanPhrase(text, ps[0], 0, acc);
      ScanPhraseSound(text, ps[0], 0, acc);
      ScanAllSound(text, ps[1..], acc1);
      var r := ScanAll(text, ps[1..], acc1);
      forall k | |acc| <= k < |r|
        ensures exists j :: 0 <= j < |ps| && OccursAt(text, ps[j], r[k].start) && Len(r[k]) == |ps[j]|
      {
        if k < |acc1| {
          assert r[k] == acc1[k];
          assert OccursAt(text, ps[0], r[k].start) && Len(r[k]) == |ps[0]|;
        } else {
          var j :| 0 <= j < |ps[1..]| && OccursAt(text, ps[1..][j], r[k].start) && Len(r[k]) == |ps[1..][j]|;
          assert ps[1..][j] == ps[j + 1];
        }
      }
    }
  }

  predicate Descending(ps: seq<string>) {
    forall k, l :: 0 <= k < l < |ps| ==> |ps[k]| >= |ps[l]|
  }

  /** Longer phrases win: with the phrases longest first, every occurrence
      the scan of a phrase reaches is met by an accepted match at least as
      long as that phrase. */
  lemma {:induction false} ScanAllCovers(text: string, ps: seq<string>, acc: seq<Match>, k: nat, i: nat)
    requires NonEmptyPhrases(ps) && Descending(ps) && Good(text, acc)
    requires k < |ps| && MinLength(acc, |ps[0]|) && Found(text, ps[k], 0, i)
    ensures Covered(ScanAll(text, ps, acc), i, i + |ps[k]|, |ps[k]|)
  {
    var acc1 := ScanPhrase(text, ps[0], 0, acc);
    ScanPhraseSound(text, ps[0], 0, acc);
    var r := ScanAll(text, ps, acc);
    assert r == ScanAll(text, ps[1..], acc1);
    if k == 0 {
      ScanPhraseCovers(text, ps[0], 0, acc, i);
      ScanAllSound(text, ps[1..], acc1);
      var w :| 0 <= w < |acc1| && Intersects(i, i + |ps[0]|, acc1[w]) && Len(acc1[w]) >= |ps[0]|;
      assert r[w] == acc1[w];
    } else {
      assert MinLength(acc1, |ps[1]|) by {
        forall w | 0 <= w < |acc1| ensures Len(acc1[w]) >= |ps[1]| {
          if w < |acc| { assert acc1[w] == acc[w]; }
        }
      }
      assert ps[1..][k - 1] == ps[k];
      ScanAllCovers(text, ps[1..], acc1, k - 1, i);
    }
  }

  // ---------------------------------------------------------------------
  // Stable sorting (`Array.prototype.sort` with a comparator)
  // ---------------------------------------------------------------------

  /** The elements of `s` whose key is `v`, in order. */
  function Filter<T>(s: seq<T>, key: T -> int, v: int): seq<T> {
    if s == [] then [] else (if key(s[0]) == v then [s[0]] else []) + Filter(s[1..], key, v)
  }

  predicate SortedBy<T>(s: seq<T>, key: T -> int) {
    forall k, l :: 0 <= k < l < |s| ==> key(s[k]) <= key(s[l])
  }

  /** `t` is `s` stably sorted by ascending key: sorted, and for every key
      the elements with that key come in their original order. */
  ghost predicate StableSortOf<T>(t: seq<T>, s: seq<T>, key: T -> int) {
    SortedBy(t, key) && forall v :: Filter(t, key, v) == Filter(s, key, v)
  }

  lemma {:induction false} FilterConcat<T>(a: seq<T>, b: seq<T>, key: T -> int, v: int)
    ensures Filter(a + b, key, v) == Filter(a, key, v) + Filter(b, key, v)
  {
    if a != [] {
      assert (a + b)[1..] == a[1..] + b;
      FilterConcat(a[1..], b, key, v);
    } else {
      assert a + b == b;
    }
  }

  lemma {:induction false} FilterAbove<T>(s: seq<T>, key: T -> int, v: int)
    requires forall k :: 0 <= k < |s| ==> key(s[k]) > v
    ensures Filter(s, key, v) == []
  {
    if s != [] {
      FilterAbove(s[1..], key, v);
    }
  }

  /** Inserting `x` after every element whose key is not above its own
      keeps a stable sort stable. */
  lemma InsertStable<T>(t: seq<T>, s: seq<T>, j: nat, x: T, key: T -> int)
    requires StableSortOf(t, s, key) && j <= |t|
    requires forall k :: 0 <= k < j ==> key(t[k]) <= key(x)
    requires j == |t| || key(t[j]) > key(x)
    ensures StableSortOf(t[..j] + [x] + t[j..], s + [x], key)
  {
    var u := t[..j] + [x] + t[j..];
    assert forall k :: j <= k < |t| ==> key(t[k]) > key(x) by {
      forall k | j <= k < |t| ensures key(t[k]) > key(x) {
        assert key(t[j]) <= key(t[k]) || j == k;
      }
    }
    InsertSorted(t, j, x, key);
    forall v ensures Filter(u, key, v) == Filter(s + [x], key, v) {
      InsertFilter(t, j, x, key, v);
      FilterConcat(s, [x], key, v);
    }
  }

  lemma InsertSorted<T>(t: seq<T>, j: nat, x: T, key: T -> int)
    requires SortedBy(t, key) && j <= |t|
    requires forall k :: 0 <= k < j ==> key(t[k]) <= key(x)
    requires forall k :: j <= k < |t| ==> key(t[k]) > key(x)
    ensures SortedBy(t[..j] + [x] + t[j..], key)
  {
    var u := t[..j] + [x] + t[j..];
    assert forall k :: 0 <= k < j ==> u[k] == t[k];
    assert u[j] == x;
    assert forall k :: j < k < |u| ==> u[k] == t[k - 1];
  }

  /** The key classes after the insertion: `x` joins the end of its own. */
  lemma InsertFilter<T>(t: seq<T>, j: nat, x: T, key: T -> int, v: int)
    requires j <= |t| && forall k :: j <= k < |t| ==> key(t[k]) > key(x)
    ensures Filter(t[..j] + [x] + t[j..], key, v) == Filter(t, key, v) + Filter([x], key, v)
  {
    var a, b := t[..j], t[j..];
    assert t == a + b;
    FilterConcat(a + [x], b, key, v);
    FilterConcat(a, [x], key, v);
    FilterConcat(a, b, key, v);
    var fa, fx, fb := Filter(a, key, v), Filter([x], key, v), Filter(b, key, v);
    if v == key(x) {
      FilterAbove(b, key, v);
      assert fa + fx + fb == (fa + fb) + fx by { assert fb == []; assert fa + fb == fa; }
    } else {
      assert fx == [];
      assert fa + fx + fb == (fa + fb) + fx by { assert fa + fx == fa; assert (fa + fb) + fx == fa + fb; }
    }
  }

  /** Where insertion sort puts `x`: after every element whose key is not
      above its own. */
  method InsertionPoint<T>(t: seq<T>, x: T, key: T -> int) returns (j: nat)
    ensures j <= |t| && (j == |t| || key(t[j]) > key(x))
    ensures forall k :: 0 <= k < j ==> key(t[k]) <= key(x)
  {
    j := 0;
    while j < |t| && key(t[j]) <= key(x)
      invariant j <= |t|
      invariant forall k :: 0 <= k < j ==> key(t[k]) <= key(x)
    {
      j := j + 1;
    }
  }

  /** A stable sort by key (an insertion sort; any stable sort gives the
      same sequence, see StableSortUnique). */
  method SortByKey<T>(s: seq<T>, key: T -> int) returns (t: seq<T>)
    ensures StableSortOf(t, s, key)
    ensures multiset(t) == multiset(s)
  {
    t := [];
    for n := 0 to |s|
      invariant StableSortOf(t, s[..n], key)
      invariant multiset(t) == multiset(s[..n])
    {
      var j := InsertionPoint(t, s[n], key);
      InsertStep(t, s, n, j, key);
      t := t[..j] + [s[n]] + t[j..];
    }
    assert s[..|s|] == s;
  }

  /** One round of the insertion sort keeps both loop invariants. */
  lemma InsertStep<T>(t: seq<T>, s: seq<T>, n: nat, j: nat, key: T -> int)
    requires n < |s| && StableSortOf(t, s[..n], key) && multiset(t) == multiset(s[..n])
    requires j <= |t| && (j == |t| || key(t[j]) > key(s[n]))
    requires forall k :: 0 <= k < j ==> key(t[k]) <= key(s[n])
    ensures StableSortOf(t[..j] + [s[n]] + t[j..], s[..n + 1], key)
    ensures multiset(t[..j] + [s[n]] + t[j..]) == multiset(s[..n + 1])
  {
    assert s[..n + 1] == s[..n] + [s[n]];
    InsertStable(t, s[..n], j, s[n], key);
    InsertCounts(t, s[..n], j, s[n]);
  }

  lemma InsertCounts<T>(t: seq<T>, s: seq<T>, j: nat, x: T)
    requires j <= |t| && multiset(t) == multiset(s)
    ensures multiset(t[..j] + [x] + t[j..]) == multiset(s + [x])
  {
    assert t == t[..j] + t[j..];
  }

  lemma {:induction false} FilterHasKey<T>(s: seq<T>, key: T -> int, v: int)
    requires Filter(s, key, v) != []
    ensures exists k :: 0 <= k < |s| && key(s[k]) == v
  {
    if key(s[0]) != v {
      FilterHasKey(s[1..], key, v);
      var k :| 0 <= k < |s[1..]| && key(s[1..][k]) == v;
      assert s[k + 1] == s[1..][k];
    }
  }

  lemma SortedTail<T>(t: seq<T>, key: T -> int)
    requires t != [] && SortedBy(t, key)
    ensures SortedBy(t[1..], key)
  {
    forall k, l | 0 <= k < l < |t[1..]| ensures key(t[1..][k]) <= key(t[1..][l]) {
      assert t[1..][k] == t[k + 1] && t[1..][l] == t[l + 1];
    }
  }

  lemma HeadInClass<T>(t: seq<T>, key: T -> int)
    requires t != []
    ensures Filter(t, key, key(t[0])) != [] && Filter(t, key, key(t[0]))[0] == t[0]
  {
  }

  /** In a sorted sequence no key class lies below the head's key. */
  lemma ClassAboveHead<T>(t: seq<T>, key: T -> int, v: int)
    requires t != [] && SortedBy(t, key) && Filter(t, key, v) != []
    ensures key(t[0]) <= v
  {
    FilterHasKey(t, key, v);
    var k :| 0 <= k < |t| && key(t[k]) == v;
    assert k == 0 || key(t[0]) <= key(t[k]);
  }

  /** Two sorts with the same key classes start with the same element. */
  lemma SameHead<T>(t1: seq<T>, t2: seq<T>, key: T -> int)
    requires t1 != [] && t2 != [] && SortedBy(t1, key) && SortedBy(t2, key)
    requires forall v :: Filter(t1, key, v) == Filter(t2, key, v)
    ensures t1[0] == t2[0]
  {
    var v1, v2 := key(t1[0]), key(t2[0]);
    HeadInClass(t1, key);
    HeadInClass(t2, key);
    assert Filter(t2, key, v1) == Filter(t1, key, v1);
    assert Filter(t1, key, v2) == Filter(t2, key, v2);
    ClassAboveHead(t2, key, v1);
    ClassAboveHead(t1, key, v2);
  }

  /** Dropping a common head keeps the key classes equal. */
  lemma FilterTail<T>(t1: seq<T>, t2: seq<T>, key: T -> int)
    requires t1 != [] && t2 != [] && t1[0] == t2[0]
    requires forall v :: Filter(t1, key, v) == Filter(t2, key, v)
    ensures forall v :: Filter(t1[1..], key, v) == Filter(t2[1..], key, v)
  {
    forall v ensures Filter(t1[1..], key, v) == Filter(t2[1..], key, v) {
      var h := if key(t1[0]) == v then [t1[0]] else [];
      var f1, f2 := Filter(t1[1..], key, v), Filter(t2[1..], key, v);
      assert Filter(t1, key, v) == h + f1;
      assert Filter(t2, key, v) == h + f2;
      assert (h + f1)[|h|..] == f1 && (h + f2)[|h|..] == f2;
    }
  }

  /** A stable sort is determined by its input: two stable sorts of the
      same sequence are equal, so the model's sort and the engine's agree. */
  lemma StableSortUnique<T>(t1: seq<T>, t2: seq<T>, s: seq<T>, key: T -> int)
    requires StableSortOf(t1, s, key) && StableSortOf(t2, s, key)
    ensures t1 == t2
  {
    assert forall v :: Filter(t1, key, v) == Filter(t2, key, v) by {
      forall v ensures Filter(t1, key, v) == Filter(t2, key, v) {
        assert Filter(t1, key, v) == Filter(s, key, v);
      }
    }
    SortedClassesUnique(t1, t2, key);
  }

  /** Two sorted sequences with the same key classes are equal. */
  lemma {:induction false} SortedClassesUnique<T>(t1: seq<T>, t2: seq<T>, key: T -> int)
    requires SortedBy(t1, key) && SortedBy(t2, key)
    requires forall v :: Filter(t1, key, v) == Filter(t2, key, v)
    ensures t1 == t2
    decreases |t1|
  {
    BothEmpty(t1, t2, key);
    if t1 != [] {
      SameHead(t1, t2, key);
      FilterTail(t1, t2, key);
      SortedTail(t1, key);
      SortedTail(t2, key);
      SortedClassesUnique(t1[1..], t2[1..], key);
      assert t1 == [t1[0]] + t1[1..] && t2 == [t2[0]] + t2[1..];
    }
  }

  /** Equal key classes: one sequence is empty exactly when the other is. */
  lemma BothEmpty<T>(t1: seq<T>, t2: seq<T>, key: T -> int)
    requires forall v :: Filter(t1, key, v) == Filter(t2, key, v)
    ensures t1 == [] <==> t2 == []
  {
    if t1 != [] {
      assert Filter(t1, key, key(t1[0])) != [];
    }
    if t2 != [] {
      assert Filter(t2, key, key(t2[0])) != [];
    }
  }

  /** The comparator `(a, b) => b.length - a.length`: longest first. */
  function NegLength(p: string): int {
    -|p|
  }

  /** The comparator `(a, b) => a.start - b.start`. */
  function StartKey(m: Match): int {
    m.start
  }

  lemma LengthOrder(ps: seq<string>)
    requires SortedBy(ps, NegLength)
    ensures Descending(ps)
  {
    forall k, l | 0 <= k < l < |ps| ensures |ps[k]| >= |ps[l]| {
      assert NegLength(ps[k]) <= NegLength(ps[l]);
    }
  }

  /** The same multiset of matches is as well formed and disjoint in
      any order. */
  lemma ReorderGood(text: string, ms: seq<Match>, t: seq<Match>)
    requires Good(text, ms) && multiset(t) == multiset(ms)
    ensures Good(text, t)
  {
    forall k | 0 <= k < |t| ensures WellFormed(text, t[k]) {
      assert t[k] in multiset(ms);
    }
    forall k, l | 0 <= k < l < |t| ensures Disjoint(t[k], t[l]) {
      assert t[k] in multiset(ms) && t[l] in multiset(ms);
      var a :| 0 <= a < |ms| && ms[a] == t[k];
      var b :| 0 <= b < |ms| && ms[b] == t[l];
      if t[k] == t[l] {
        Twice(t, k, l);
        TwiceAt(ms, t[k]);
      } else {
        assert a != b;
      }
    }
  }

  lemma Twice<T>(s: seq<T>, k: nat, l: nat)
    requires k < l < |s| && s[k] == s[l]
    ensures multiset(s)[s[k]] >= 2
  {
    assert s == s[..l] + [s[l]] + s[l + 1..];
    assert s[k] in s[..l];
  }

  /** A match occurring twice in a list of disjoint matches is empty. */
  lemma {:induction false} TwiceAt(ms: seq<Match>, x: Match)
    requires multiset(ms)[x] >= 2 && forall k, l :: 0 <= k < l < |ms| ==> Disjoint(ms[k], ms[l])
    ensures x.end <= x.start
  {
    assert ms == [ms[0]] + ms[1..];
    if ms[0] == x {
      assert x in ms[1..];
      var b :| 0 <= b < |ms[1..]| && ms[1..][b] == x;
      assert Disjoint(ms[0], ms[b + 1]);
    } else {
      forall k, l | 0 <= k < l < |ms[1..]| ensures Disjoint(ms[1..][k], ms[1..][l]) {
        assert ms[1..][k] == ms[k + 1] && ms[1..][l] == ms[l + 1];
      }
      TwiceAt(ms[1..], x);
    }
  }

  // ---------------------------------------------------------------------
  // Building the parts
  // ---------------------------------------------------------------------

  /** Matches in increasing position, none starting before `last`. */
  predicate Chain(text: string, ms: seq<Match>, last: nat) {
    && last <= |text|
    && (ms != [] ==> last <= ms[0].start && WellFormed(text, ms[0]) && Chain(text, ms[1..], ms[0].end))
  }

  /** Well-formed matches, each ending before the next one starts. */
  predicate Ordered(text: string, ms: seq<Match>) {
    && (forall k :: 0 <= k < |ms| ==> WellFormed(text, ms[k]))
    && (forall k, l :: 0 <= k < l < |ms| ==> ms[k].end <= ms[l].start)
  }

  lemma {:induction false} OrderedChain(text: string, ms: seq<Match>, last: nat)
    requires Ordered(text, ms) && last <= |text| && (ms != [] ==> last <= ms[0].start)
    ensures Chain(text, ms, last)
    decreases |ms|
  {
    if ms != [] {
      var t := ms[1..];
      assert forall k :: 0 <= k < |t| ==> t[k] == ms[k + 1];
      assert Ordered(text, t);
      OrderedChain(text, t, ms[0].end);
    }
  }

  /** Disjoint matches sorted by start follow each other. */
  lemma SortedChain(text: string, ms: seq<Match>)
    requires Good(text, ms) && SortedBy(ms, StartKey)
    ensures Chain(text, ms, 0)
  {
    forall k, l | 0 <= k < l < |ms| ensures ms[k].end <= ms[l].start {
      assert StartKey(ms[k]) <= StartKey(ms[l]);
      assert Disjoint(ms[k], ms[l]);
    }
    OrderedChain(text, ms, 0);
  }

  /** The plain part between two positions, when there is text there. */
  function Gap(text: string, from: nat, to: nat): seq<Part>
    requires from <= to <= |text|
  {
    if to > from then [Part(text[from..to], false)] else []
  }

  /** The parts the build loop emits for the matches `ms` after
      `lastIndex == last`, the tail included. */
  function Segments(text: string, ms: seq<Match>, last: nat): seq<Part>
    requires Chain(text, ms, last)
    decreases |ms|
  {
    if ms == [] then Gap(text, last, |text|)
    else Gap(text, last, ms[0].start) + [Part(ms[0].phrase, true)] + Segments(text, ms[1..], ms[0].end)
  }

  /** The rendered string: the parts' texts in order. */
  function Concat(parts: seq<Part>): string {
    if parts == [] then "" else parts[0].text + Concat(parts[1..])
  }

  /** The texts of the highlighted parts, in order. */
  function HighlightedTexts(parts: seq<Part>): seq<string> {
    if parts == [] then []
    else (if parts[0].highlighted then [parts[0].text] else []) + HighlightedTexts(parts[1..])
  }

  function Phrases(ms: seq<Match>): seq<string> {
    if ms == [] then [] else [ms[0].phrase] + Phrases(ms[1..])
  }

  ghost predicate NoAdjacentPlain(parts: seq<Part>) {
    forall k, l :: 0 <= k < l < |parts| && l == k + 1 ==> parts[k].highlighted || parts[l].highlighted
  }

  predicate NoEmptyPart(parts: seq<Part>) {
    forall k :: 0 <= k < |parts| ==> parts[k].text != []
  }

  lemma {:induction false} ConcatAppend(a: seq<Part>, b: seq<Part>)
    ensures Concat(a + b) == Concat(a) + Concat(b)
  {
    if a != [] {
      assert (a + b)[1..] == a[1..] + b;
      ConcatAppend(a[1..], b);
    } else {
      assert a + b == b;
    }
  }

  lemma {:induction false} HighlightedAppend(a: seq<Part>, b: seq<Part>)
    ensures HighlightedTexts(a + b) == HighlightedTexts(a) + HighlightedTexts(b)
  {
    if a != [] {
      assert (a + b)[1..] == a[1..] + b;
      HighlightedAppend(a[1..], b);
    } else {
      assert a + b == b;
    }
  }

  /** Nothing is lost or repeated: the parts spell out the text from
      `last` on. */
  lemma {:induction false} SegmentsLossless(text: string, ms: seq<Match>, last: nat)
    requires Chain(text, ms, last)
    ensures Concat(Segments(text, ms, last)) == text[last..]
    decreases |ms|
  {
    if ms == [] {
      GapText(text, last, |text|);
      assert text[last..|text|] == text[last..];
    } else {
      var m := ms[0];
      SegmentsLossless(text, ms[1..], m.end);
      var g, h := Gap(text, last, m.start), [Part(m.phrase, true)];
      ConcatAppend(g + h, Segments(text, ms[1..], m.end));
      ConcatAppend(g, h);
      GapText(text, last, m.start);
      assert Concat(h) == m.phrase;
      SliceThree(text, last, m.start, m.end);
    }
  }

  lemma GapText(text: string, from: nat, to: nat)
    requires from <= to <= |text|
    ensures Concat(Gap(text, from, to)) == text[from..to]
  {
  }

  lemma SliceThree(text: string, a: nat, b: nat, c: nat)
    requires a <= b <= c <= |text|
    ensures text[a..] == text[a..b] + text[b..c] + text[c..]
  {
  }

  /** The highlighted parts are the matches' texts, in order. */
  lemma {:induction false} SegmentsHighlights(text: string, ms: seq<Match>, last: nat)
    requires Chain(text, ms, last)
    ensures HighlightedTexts(Segments(text, ms, last)) == Phrases(ms)
    decreases |ms|
  {
    if ms != [] {
      var m := ms[0];
      SegmentsHighlights(text, ms[1..], m.end);
      var g, h := Gap(text, last, m.start), [Part(m.phrase, true)];
      HighlightedAppend(g + h, Segments(text, ms[1..], m.end));
      HighlightedAppend(g, h);
    }
  }

  /** No part is empty and no two plain parts follow each other; two
      touching matches give two highlighted parts in a row. */
  lemma {:induction false} SegmentsShape(text: string, ms: seq<Match>, last: nat)
    requires Chain(text, ms, last)
    ensures NoEmptyPart(Segments(text, ms, last))
    ensures NoAdjacentPlain(Segments(text, ms, last))
    decreases |ms|
  {
    if ms != [] {
      var m := ms[0];
      SegmentsShape(text, ms[1..], m.end);
      var g, rest := Gap(text, last, m.start), Segments(text, ms[1..], m.end);
      var u := g + [Part(m.phrase, true)] + rest;
      assert m.phrase != [] by { assert |m.phrase| == m.end - m.start; }
      forall k | 0 <= k < |u| ensures u[k].text != [] {
        if k > |g| { assert u[k] == rest[k - |g| - 1]; }
      }
      forall k, l | 0 <= k < l < |u| && l == k + 1 ensures u[k].highlighted || u[l].highlighted {
        if k > |g| {
          assert u[k] == rest[k - |g| - 1] && u[l] == rest[l - |g| - 1];
        }
      }
    }
  }

  /** The build loop (`matches.forEach` and the tail). */
  method BuildParts(text: string, ms: seq<Match>) returns (parts: seq<Part>)
    requires Chain(text, ms, 0)
    ensures parts == Segments(text, ms, 0)
  {
    parts := [];
    var lastIndex: nat := 0;
    assert ms[0..] == ms;
    for k := 0 to |ms|
      invariant Chain(text, ms[k..], lastIndex)
      invariant parts + Segments(text, ms[k..], lastIndex) == Segments(text, ms, 0)
    {
      var m := ms[k];
      SegmentsStep(text, ms, k, lastIndex);
      ghost var g, rest := Gap(text, lastIndex, m.start), Segments(text, ms[k + 1..], m.end);
      Regroup(parts, g, [Part(m.phrase, true)], rest);
      if m.start > lastIndex {
        parts := parts + [Part(text[lastIndex..m.start], false)];
      } else {
        assert parts + g == parts;
      }
      parts := parts + [Part(m.phrase, true)];
      lastIndex := m.end;
    }
    assert ms[|ms|..] == [];
    assert Segments(text, ms[|ms|..], lastIndex) == Gap(text, lastIndex, |text|);
    assert text[lastIndex..] == text[lastIndex..|text|];
    assert parts + [] == parts;
    if lastIndex < |text| {
      parts := parts + [Part(text[lastIndex..], false)];
    }
  }

  lemma Regroup<T>(a: seq<T>, b: seq<T>, c: seq<T>, d: seq<T>)
    ensures a + (b + c + d) == a + b + c + d
  {
  }

  /** One iteration of the build loop, for the match at index `k`. */
  lemma SegmentsStep(text: string, ms: seq<Match>, k: nat, last: nat)
    requires k < |ms| && Chain(text, ms[k..], last)
    ensures ms[k..][0] == ms[k] && ms[k..][1..] == ms[k + 1..]
    ensures last <= ms[k].start && Chain(text, ms[k + 1..], ms[k].end)
    ensures Segments(text, ms[k..], last) ==
      Gap(text, last, ms[k].start) + [Part(ms[k].phrase, true)] + Segments(text, ms[k + 1..], ms[k].end)
  {
    assert ms[k..][1..] == ms[k + 1..];
  }

  // ---------------------------------------------------------------------
  // The scan loops and the component
  // ---------------------------------------------------------------------

  /** The `while` loop of one phrase: `regex.exec` from `lastIndex`, the
      overlap test, and the jump past the occurrence found. */
  method ScanPhraseLoop(text: string, phrase: string, acc: seq<Match>) returns (matches: seq<Match>)
    requires |phrase| >= 1
    ensures matches == ScanPhrase(text, phrase, 0, acc)
  {
    ghost var target := ScanPhrase(text, phrase, 0, acc);
    matches := acc;
    var lastIndex: nat := 0;
    var next := NextOccurrence(text, phrase, lastIndex);
    while next.Some?
      invariant lastIndex <= |text|
      invariant next == NextOccurrence(text, phrase, lastIndex)
      invariant ScanPhrase(text, phrase, lastIndex, matches) == target
      decreases |text| - lastIndex
    {
      matches, lastIndex := ScanStep(text, phrase, lastIndex, matches, next.value);
      next := NextOccurrence(text, phrase, lastIndex);
    }
    ScanPhraseEnd(text, phrase, lastIndex, matches);
  }

  /** One iteration: the occurrence `exec` found at `i` goes through the
      overlap test and `lastIndex` moves past it, accepted or not. */
  method ScanStep(text: string, phrase: string, lastIndex: nat, matches: seq<Match>, i: nat)
    returns (matches': seq<Match>, lastIndex': nat)
    requires |phrase| >= 1 && NextOccurrence(text, phrase, lastIndex) == Some(i)
    ensures lastIndex < lastIndex' <= |text|
    ensures ScanPhrase(text, phrase, lastIndex, matches) == ScanPhrase(text, phrase, lastIndex', matches')
  {
    NextOccurrenceFits(text, phrase, lastIndex, i);
    matches' := AcceptOccurrence(text, phrase, i, matches);
    lastIndex' := i + |phrase|;
    ScanPhraseJump(text, phrase, lastIndex, matches, i, lastIndex', matches');
  }

  /** The overlap test against the accepted matches and the push of the
      occurrence `[i, i + |phrase|)` when it meets none of them: the
      statements of the loop body, proved equal to the function Accept
      that the specification of the scan is written with. */
  method AcceptOccurrence(text: string, phrase: string, i: nat, matches: seq<Match>) returns (r: seq<Match>)
    requires i + |phrase| <= |text|
    ensures r == Accept(text, phrase, i, matches)
  {
    r := matches;
    var overlaps := OverlapsAny(i, i + |phrase|, matches);
    if !overlaps {
      r := r + [Match(i, i + |phrase|, text[i..i + |phrase|])];
    }
  }

  /** The `forEach` over the sorted phrases. */
  method CollectMatches(text: string, sorted: seq<string>) returns (matches: seq<Match>)
    requires NonEmptyPhrases(sorted)
    ensures matches == ScanAll(text, sorted, [])
  {
    matches := [];
    for n := 0 to |sorted|
      invariant ScanAll(text, sorted[n..], matches) == ScanAll(text, sorted, [])
    {
      matches := ScanPhraseLoop(text, sorted[n], matches);
      assert sorted[n..][1..] == sorted[n + 1..];
    }
  }

  /** What `HighlightedText` computes: `sorted` is the phrase list stably
      sorted longest first, `matches` what the scan accepts, `ordered`
      those matches stably sorted by start, and `parts` the parts built
      from them. */
  ghost predicate Highlighting(text: string, highlights: seq<string>, sorted: seq<string>,
                               matches: seq<Match>, ordered: seq<Match>, parts: seq<Part>) {
    && StableSortOf(sorted, highlights, NegLength) && multiset(sorted) == multiset(highlights)
    && NonEmptyPhrases(sorted) && matches == ScanAll(text, sorted, [])
    && StableSortOf(ordered, matches, StartKey) && multiset(ordered) == multiset(matches)
    && Chain(text, ordered, 0) && parts == Segments(text, ordered, 0)
  }

  /** The matching and segmentation of `HighlightedText`. */
  method HighlightText(text: string, custom: Option<seq<string>>)
      returns (parts: seq<Part>, ghost sorted: seq<string>, ghost matches: seq<Match>, ghost ordered: seq<Match>)
    requires NonEmptyPhrases(ChooseHighlights(custom))
    ensures Highlighting(text, ChooseHighlights(custom), sorted, matches, ordered, parts)
    ensures Concat(parts) == text && NoEmptyPart(parts) && NoAdjacentPlain(parts)
  {
    var highlights := ChooseHighlights(custom);
    var sortedHighlights := SortByKey(highlights, NegLength);
    sorted := sortedHighlights;
    PermutedPhrases(highlights, sortedHighlights);
    var found := CollectMatches(text, sortedHighlights);
    matches := found;
    var byStart := SortByKey(found, StartKey);
    ordered := byStart;
    MatchesChain(text, sortedHighlights, found, byStart);
    parts := BuildParts(text, byStart);
    HighlightingParts(text, highlights, sorted, matches, ordered, parts);
  }

  /** The accepted matches, sorted by start, follow each other. */
  lemma MatchesChain(text: string, sorted: seq<string>, found: seq<Match>, byStart: seq<Match>)
    requires NonEmptyPhrases(sorted) && found == ScanAll(text, sorted, [])
    requires multiset(byStart) == multiset(found) && SortedBy(byStart, StartKey)
    ensures Chain(text, byStart, 0)
  {
    ScanAllSound(text, sorted, []);
    ReorderGood(text, found, byStart);
    SortedChain(text, byStart);
  }

  lemma PermutedPhrases(ps: seq<string>, qs: seq<string>)
    requires NonEmptyPhrases(ps) && multiset(qs) == multiset(ps)
    ensures NonEmptyPhrases(qs)
  {
    forall k | 0 <= k < |qs| ensures |qs[k]| >= 1 {
      assert qs[k] in multiset(ps);
    }
  }

  /** The result is determined by the text and the phrase list. */
  lemma HighlightingUnique(text: string, highlights: seq<string>,
                           sorted1: seq<string>, matches1: seq<Match>, ordered1: seq<Match>, parts1: seq<Part>,
                           sorted2: seq<string>, matches2: seq<Match>, ordered2: seq<Match>, parts2: seq<Part>)
    requires Highlighting(text, highlights, sorted1, matches1, ordered1, parts1)
    requires Highlighting(text, highlights, sorted2, matches2, ordered2, parts2)
    ensures sorted1 == sorted2 && matches1 == matches2 && ordered1 == ordered2 && parts1 == parts2
  {
    StableSortUnique(sorted1, sorted2, highlights, NegLength);
    StableSortUnique(ordered1, ordered2, matches1, StartKey);
  }

  /** The accepted matches are well formed and pairwise disjoint, and so
      are they in position order. */
  lemma HighlightingDisjoint(text: string, highlights: seq<string>, sorted: seq<string>,
                             matches: seq<Match>, ordered: seq<Match>, parts: seq<Part>)
    requires Highlighting(text, highlights, sorted, matches, ordered, parts)
    ensures Good(text, matches) && Good(text, ordered) && SortedBy(ordered, StartKey)
  {
    ScanAllSound(text, sorted, []);
    ReorderGood(text, matches, ordered);
  }

  /** The parts spell the text, no part is empty, no two plain parts are
      adjacent, and the highlighted parts are the matched texts in
      position order. */
  lemma HighlightingParts(text: string, highlights: seq<string>, sorted: seq<string>,
                          matches: seq<Match>, ordered: seq<Match>, parts: seq<Part>)
    requires Highlighting(text, highlights, sorted, matches, ordered, parts)
    ensures Concat(parts) == text
    ensures NoEmptyPart(parts) && NoAdjacentPlain(parts)
    ensures HighlightedTexts(parts) == Phrases(ordered)
    ensures forall k :: 0 <= k < |ordered| ==> WellFormed(text, ordered[k])
  {
    HighlightingDisjoint(text, highlights, sorted, matches, ordered, parts);
    SegmentsLossless(text, ordered, 0);
    assert text[0..] == text;
    SegmentsShape(text, ordered, 0);
    SegmentsHighlights(text, ordered, 0);
  }

  /** Longer phrases win: every occurrence the scan of a phrase reaches is
      met by an accepted match at least as long as that phrase. */
  lemma HighlightingCovers(text: string, highlights: seq<string>, sorted: seq<string>,
                           matches: seq<Match>, ordered: seq<Match>, parts: seq<Part>)
    requires Highlighting(text, highlights, sorted, matches, ordered, parts)
    ensures forall k, i: nat :: 0 <= k < |sorted| && Found(text, sorted[k], 0, i) ==>
              Covered(matches, i, i + |sorted[k]|, |sorted[k]|)
  {
    LengthOrder(sorted);
    forall k, i: nat | 0 <= k < |sorted| && Found(text, sorted[k], 0, i)
      ensures Covered(matches, i, i + |sorted[k]|, |sorted[k]|)
    {
      ScanAllCovers(text, sorted, [], k, i);
    }
  }

  /** The empty text gives no parts. */
  lemma HighlightingEmpty(text: string, highlights: seq<string>, sorted: seq<string>,
                          matches: seq<Match>, ordered: seq<Match>, parts: seq<Part>)
    requires Highlighting(text, highlights, sorted, matches, ordered, parts) && text == []
    ensures parts == []
  {
    ScanAllSound(text, sorted, []);
    assert matches != [] ==> WellFormed(text, MatchAt(matches, 0));
    assert |ordered| == |multiset(ordered)| == |multiset(matches)|;
  }

  /** The match at `k`, or an empty one past the end. */
  function MatchAt(ms: seq<Match>, k: int): Match {
    if 0 <= k < |ms| then ms[k] else Match(0, 0, "")
  }

  /** With no occurrence of any phrase nothing is accepted, and the text
      comes out as one plain part (none for the empty text). */
  lemma HighlightingNoMatch(text: string, highlights: seq<string>, sorted: seq<string>,
                            matches: seq<Match>, ordered: seq<Match>, parts: seq<Part>)
    requires Highlighting(text, highlights, sorted, matches, ordered, parts)
    requires forall p, i: nat :: p in highlights ==> !OccursAt(text, p, i)
    ensures parts == if text == [] then [] else [Part(text, false)]
  {
    ScanAllSound(text, sorted, []);
    forall j | 0 <= j < |sorted| ensures forall i: nat :: !OccursAt(text, sorted[j], i) {
      assert sorted[j] in multiset(highlights);
    }
    assert matches != [] ==> MatchAt(matches, 0) in matches;
    assert |ordered| == |multiset(ordered)|;
    assert text[0..|text|] == text;
  }

  /** A text that is, up to case, one of the phrases is one highlighted
      part in its own casing: the occurrence at 0 is reached, nothing
      longer fits, so the match covering it is the whole text. */
  lemma HighlightingWhole(text: string, highlights: seq<string>, sorted: seq<string>,
                          matches: seq<Match>, ordered: seq<Match>, parts: seq<Part>, p: string)
    requires Highlighting(text, highlights, sorted, matches, ordered, parts)
    requires p in highlights && SameFold(text, p)
    ensures parts == [Part(text, true)]
  {
    assert p in multiset(sorted);
    var k :| 0 <= k < |sorted| && sorted[k] == p;
    HighlightingCovers(text, highlights, sorted, matches, ordered, parts);
    ScanAllSound(text, sorted, []);
    WholeMatch(text, p, matches);
    OnlyMatch(text, matches);
    SingleSegment(text, matches, ordered);
  }

  /** With the default list, "Entrepreneurship" comes out as one highlighted
      part in its own casing: the shorter "entrepreneur" does not split it. */
  lemma DefaultKeepsLongest(text: string, highlights: seq<string>, sorted: seq<string>,
                            matches: seq<Match>, ordered: seq<Match>, parts: seq<Part>)
    requires highlights == DefaultHighlights && text == "Entrepreneurship"
    requires Highlighting(text, highlights, sorted, matches, ordered, parts)
    ensures parts == [Part(text, true)]
  {
    LongestListed(text, highlights);
    HighlightingWhole(text, highlights, sorted, matches, ordered, parts, highlights[10]);
  }

  /** "entrepreneurship" is on the default list and matches the text. */
  lemma LongestListed(text: string, highlights: seq<string>)
    requires highlights == DefaultHighlights && text == "Entrepreneurship"
    ensures |highlights| > 10 && highlights[10] in highlights && SameFold(text, highlights[10])
  {
    assert highlights[10] == "entrepreneurship";
  }

  /** The phrase occurs at 0 and is reached there; a match at least as
      long that meets it is the whole text. */
  lemma WholeMatch(text: string, p: string, matches: seq<Match>)
    requires |p| >= 1 && SameFold(text, p) && Good(text, matches)
    requires Found(text, p, 0, 0) ==> Covered(matches, 0, |p|, |p|)
    ensures exists w :: 0 <= w < |matches| && matches[w] == Match(0, |text|, text)
  {
    assert OccursAt(text, p, 0);
    FoundOccurs(text, p, 0, 0);
    var w :| 0 <= w < |matches| && Intersects(0, |p|, matches[w]) && Len(matches[w]) >= |p|;
    assert matches[w] == Match(0, |text|, text) by { assert text[0..|text|] == text; }
  }

  /** The only match, the whole text, gives the one highlighted part. */
  lemma SingleSegment(text: string, matches: seq<Match>, ordered: seq<Match>)
    requires matches == [Match(0, |text|, text)] && multiset(ordered) == multiset(matches)
    requires Chain(text, ordered, 0)
    ensures Segments(text, ordered, 0) == [Part(text, true)]
  {
    assert |ordered| == |multiset(ordered)| == 1;
    assert ordered[0] in multiset(matches);
  }

  /** A match spanning the whole text leaves room for no other. */
  lemma OnlyMatch(text: string, ms: seq<Match>)
    requires Good(text, ms) && exists w :: 0 <= w < |ms| && ms[w] == Match(0, |text|, text)
    ensures ms == [Match(0, |text|, text)]
  {
    var w :| 0 <= w < |ms| && ms[w] == Match(0, |text|, text);
    assert forall l :: 0 <= l < |ms| ==> !Disjoint(ms[l], ms[w]) && !Disjoint(ms[w], ms[l]);
    assert 0 < w ==> Disjoint(MatchAt(ms, 0), MatchAt(ms, w));
    assert |ms| >= 2 ==> Disjoint(MatchAt(ms, 0), MatchAt(ms, 1));
  }
}
