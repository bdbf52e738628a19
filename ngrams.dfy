/** The n-gram statistics of the exploratory analysis: lower-casing, splitting
    on whitespace, consecutive word pairs, counting with a `Counter`, and
    `most_common(n)`. A `Counter` is modelled as its entries in insertion
    order, which for `Counter(iterable)` is the order of first occurrence. */
module Ngrams {
  import opened Wrappers
  import StableSort

  /** Python's `str.isspace`: the characters `str.split()` separates words at. */
  predicate IsSpace(c: char) {
    || c == ' '
    || '\t' <= c <= '\r'
    || '\U{1C}' <= c <= '\U{1F}'
    || c == '\U{85}' || c == '\U{A0}' || c == '\U{1680}'
    || '\U{2000}' <= c <= '\U{200A}'
    || c == '\U{2028}' || c == '\U{2029}' || c == '\U{202F}' || c == '\U{205F}' || c == '\U{3000}'
  }

  predicate IsUpper(c: char) {
    'A' <= c <= 'Z'
  }

  /** `str.lower()` on one character: an upper-case ASCII letter becomes the
      lower-case letter at the same place in the alphabet; letters outside
      ASCII are kept as they are. */
  function LowerChar(c: char): (d: char)
    ensures IsSpace(d) <==> IsSpace(c)
    ensures !IsUpper(d)
    ensures IsUpper(c) ==> 'a' <= d <= 'z' && d as int - 'a' as int == c as int - 'A' as int
    ensures !IsUpper(c) ==> d == c
  {
    if IsUpper(c) then (c as int + 32) as char else c
  }

  function Lower(s: string): (r: string)
    ensures |r| == |s|
    ensures forall i :: 0 <= i < |s| ==> r[i] == LowerChar(s[i])
  {
    seq(|s|, i requires 0 <= i < |s| => LowerChar(s[i]))
  }

  /** Lower-casing keeps every whitespace position, leaves no upper-case
      letter, and lower-casing again changes nothing. */
  lemma LowerProperties(s: string)
    ensures forall i :: 0 <= i < |s| ==> (IsSpace(Lower(s)[i]) <==> IsSpace(s[i]))
    ensures forall i :: 0 <= i < |s| ==> !IsUpper(Lower(s)[i])
    ensures Lower(Lower(s)) == Lower(s)
  {
  }

  /** Two characters that are the same letter, one or both possibly in
      upper case. */
  predicate SameIgnoringCase(c: char, e: char) {
    || c == e
    || (IsUpper(c) && e as int == c as int + 32)
    || (IsUpper(e) && c as int == e as int + 32)
  }

  /** Lower-casing is what makes the word counts case-insensitive: two texts
      that differ only in the case of ASCII letters lower-case to the same
      text, and lower-cased texts that are equal differ only in case. */
  lemma LowerIgnoresCase(a: string, b: string)
    requires |a| == |b|
    ensures (forall i :: 0 <= i < |a| ==> SameIgnoringCase(a[i], b[i])) <==> Lower(a) == Lower(b)
  {
    if forall i :: 0 <= i < |a| ==> SameIgnoringCase(a[i], b[i]) {
      forall i | 0 <= i < |a|
        ensures Lower(a)[i] == Lower(b)[i]
      {
        assert SameIgnoringCase(a[i], b[i]);
      }
    }
    if Lower(a) == Lower(b) {
      forall i | 0 <= i < |a|
        ensures SameIgnoringCase(a[i], b[i])
      {
        assert LowerChar(a[i]) == LowerChar(b[i]);
      }
    }
  }

  lemma LowerAppend(a: string, b: string)
    ensures Lower(a + b) == Lower(a) + Lower(b)
  {
  }

  /** A word as `split()` returns it: non-empty and without whitespace. */
  predicate IsWord(w: string) {
    w != [] && forall i :: 0 <= i < |w| ==> !IsSpace(w[i])
  }

  /** The length of the run of non-whitespace characters that starts `s`. */
  function TokenLength(s: string): (n: nat)
    ensures n <= |s|
    ensures forall i :: 0 <= i < n ==> !IsSpace(s[i])
    ensures n < |s| ==> IsSpace(s[n])
  {
    if s == [] || IsSpace(s[0]) then 0 else 1 + TokenLength(s[1..])
  }

  /** `str.split()` with no separator: the maximal runs of non-whitespace. */
  function Words(s: string): (ws: seq<string>)
    ensures forall j :: 0 <= j < |ws| ==> IsWord(ws[j])
    decreases |s|
  {
    if s == [] then []
    else if IsSpace(s[0]) then Words(s[1..])
    else
      var n := TokenLength(s);
      [s[..n]] + Words(s[n..])
  }

  /** The characters of `s` that are not whitespace, in order. */
  function NonSpace(s: string): string {
    if s == [] then [] else (if IsSpace(s[0]) then [] else [s[0]]) + NonSpace(s[1..])
  }

  function Flatten(ws: seq<string>): string {
    if ws == [] then [] else ws[0] + Flatten(ws[1..])
  }

  lemma {:induction false} NonSpaceOfWord(w: string, rest: string)
    requires forall i :: 0 <= i < |w| ==> !IsSpace(w[i])
    ensures NonSpace(w + rest) == w + NonSpace(rest)
  {
    if w != [] {
      assert (w + rest)[0] == w[0] && (w + rest)[1..] == w[1..] + rest;
      NonSpaceOfWord(w[1..], rest);
      assert w == [w[0]] + w[1..];
      assert NonSpace(w + rest) == [w[0]] + NonSpace(w[1..] + rest);
      assert w + NonSpace(rest) == [w[0]] + (w[1..] + NonSpace(rest));
    } else {
      assert w + rest == rest;
    }
  }

  /** Splitting loses exactly the whitespace: the words, put back together,
      are the text's non-whitespace characters. */
  lemma {:induction false} WordsCoverText(s: string)
    ensures Flatten(Words(s)) == NonSpace(s)
    decreases |s|
  {
    if s != [] {
      if IsSpace(s[0]) {
        WordsCoverText(s[1..]);
      } else {
        var n := TokenLength(s);
        WordsCoverText(s[n..]);
        assert s == s[..n] + s[n..];
        NonSpaceOfWord(s[..n], s[n..]);
        assert ([s[..n]] + Words(s[n..]))[1..] == Words(s[n..]);
      }
    }
  }

  lemma {:induction false} TokenLengthOfPrefix(a: string, b: string)
    requires b != [] && IsSpace(b[0])
    ensures TokenLength(a + b) == TokenLength(a)
    decreases |a|
  {
    if a != [] && !IsSpace(a[0]) {
      assert (a + b)[1..] == a[1..] + b;
      TokenLengthOfPrefix(a[1..], b);
    }
  }

  /** A whitespace character between two texts separates their words. */
  lemma {:induction false} WordsAcrossSpace(a: string, c: char, b: string)
    requires IsSpace(c)
    ensures Words(a + [c] + b) == Words(a) + Words(b)
    decreases |a|
  {
    var s := a + [c] + b;
    if a == [] {
      assert s[1..] == b;
    } else if IsSpace(a[0]) {
      assert s[1..] == a[1..] + [c] + b;
      WordsAcrossSpace(a[1..], c, b);
    } else {
      assert s == a + ([c] + b);
      TokenLengthOfPrefix(a, [c] + b);
      var n := TokenLength(a);
      assert s[..n] == a[..n];
      assert s[n..] == a[n..] + [c] + b;
      WordsAcrossSpace(a[n..], c, b);
    }
  }

  /** `" ".join(ts)`. */
  function JoinSpace(ts: seq<string>): string {
    if ts == [] then []
    else if |ts| == 1 then ts[0]
    else JoinSpace(ts[..|ts| - 1]) + " " + ts[|ts| - 1]
  }

  /** The words of each text, one after the other. */
  function WordsOfEach(ts: seq<string>): seq<string> {
    if ts == [] then [] else WordsOfEach(ts[..|ts| - 1]) + Words(ts[|ts| - 1])
  }

  /** Joining texts with spaces and splitting the result gives the words of
      each text in turn: no word straddles two texts. */
  lemma {:induction false} WordsOfJoined(ts: seq<string>)
    ensures Words(JoinSpace(ts)) == WordsOfEach(ts)
  {
    if |ts| == 1 {
      assert ts[..0] == [];
    } else if |ts| > 1 {
      var init := ts[..|ts| - 1];
      WordsOfJoined(init);
      WordsAcrossSpace(JoinSpace(init), ' ', ts[|ts| - 1]);
    }
  }

  lemma {:induction false} WordsOfWord(w: string)
    requires IsWord(w)
    ensures Words(w) == [w]
  {
    assert TokenLength(w) == |w|;
    assert w[..|w|] == w && w[|w|..] == [];
  }

  /** Splitting undoes joining with spaces when every part is a word. */
  lemma {:induction false} SplitJoinRoundTrip(ws: seq<string>)
    requires forall j :: 0 <= j < |ws| ==> IsWord(ws[j])
    ensures Words(JoinSpace(ws)) == ws
  {
    WordsOfJoined(ws);
    WordsOfEachWords(ws);
  }

  lemma {:induction false} WordsOfEachWords(ws: seq<string>)
    requires forall j :: 0 <= j < |ws| ==> IsWord(ws[j])
    ensures WordsOfEach(ws) == ws
  {
    if ws != [] {
      WordsOfEachWords(ws[..|ws| - 1]);
      WordsOfWord(ws[|ws| - 1]);
    }
  }

  /** `zip(xs, ys)`: pairs up equal positions and stops at the shorter input. */
  function Zip<A, B>(xs: seq<A>, ys: seq<B>): (r: seq<(A, B)>)
    ensures |r| == if |xs| <= |ys| then |xs| else |ys|
    ensures forall i :: 0 <= i < |r| ==> r[i] == (xs[i], ys[i])
  {
    if xs == [] || ys == [] then [] else [(xs[0], ys[0])] + Zip(xs[1..], ys[1..])
  }

  /** `zip(words, words[1:])`. */
  function Bigrams(ws: seq<string>): seq<(string, string)> {
    if ws == [] then [] else Zip(ws, ws[1..])
  }

  /** The bigrams are exactly the consecutive word pairs, one fewer than the
      words (none for no words). */
  lemma BigramsAreConsecutivePairs(ws: seq<string>)
    ensures |Bigrams(ws)| == if ws == [] then 0 else |ws| - 1
    ensures forall i :: 0 <= i < |Bigrams(ws)| ==> Bigrams(ws)[i] == (ws[i], ws[i + 1])
    ensures forall p :: p in Bigrams(ws) <==> exists i :: 0 <= i < |ws| - 1 && p == (ws[i], ws[i + 1])
  {
    if ws != [] {
      forall p | p in Bigrams(ws) ensures exists i :: 0 <= i < |ws| - 1 && p == (ws[i], ws[i + 1]) {
        var i :| 0 <= i < |Bigrams(ws)| && Bigrams(ws)[i] == p;
        assert p == (ws[i], ws[i + 1]);
      }
      forall i | 0 <= i < |ws| - 1 ensures (ws[i], ws[i + 1]) in Bigrams(ws) {
        assert Bigrams(ws)[i] == (ws[i], ws[i + 1]);
      }
    }
  }

  /** One counted element of a `Counter`. */
  datatype Entry<T> = Entry(key: T, count: nat)

  function Keys<T>(es: seq<Entry<T>>): (ks: seq<T>)
    ensures |ks| == |es| && forall i :: 0 <= i < |es| ==> ks[i] == es[i].key
  {
    if es == [] then [] else [es[0].key] + Keys(es[1..])
  }

  /** `counter[k]`: the count of `k`, or 0 when it was never seen. */
  function CountOf<T(==,!new)>(es: seq<Entry<T>>, k: T): nat {
    if es == [] then 0 else if es[0].key == k then es[0].count else CountOf(es[1..], k)
  }

  /** The sum of all counts. */
  function Total<T>(es: seq<Entry<T>>): nat {
    if es == [] then 0 else es[0].count + Total(es[1..])
  }

  /** Counting one more `x`: its entry goes up by one, or a new entry is
      appended at the end. */
  function Bump<T(==,!new)>(es: seq<Entry<T>>, x: T): (r: seq<Entry<T>>)
    ensures Keys(r) == if x in Keys(es) then Keys(es) else Keys(es) + [x]
    ensures forall k :: CountOf(r, k) == CountOf(es, k) + (if k == x then 1 else 0)
    ensures Total(r) == Total(es) + 1
  {
    if es == [] then [Entry(x, 1)]
    else if es[0].key == x then [Entry(x, es[0].count + 1)] + es[1..]
    else
      var r := [es[0]] + Bump(es[1..], x);
      assert r[1..] == Bump(es[1..], x);
      assert Keys(es) == [es[0].key] + Keys(es[1..]);
      r
  }

  /** `Counter(xs)`. */
  function Tally<T(==,!new)>(xs: seq<T>): seq<Entry<T>> {
    if xs == [] then [] else Bump(Tally(xs[..|xs| - 1]), xs[|xs| - 1])
  }

  /** The distinct elements of `xs` in order of first occurrence. */
  function FirstOccurrences<T(==,!new)>(xs: seq<T>): (ds: seq<T>)
    ensures NoDuplicates(ds) && forall k :: k in ds <==> k in xs
  {
    if xs == [] then []
    else
      var init := xs[..|xs| - 1];
      assert xs == init + [xs[|xs| - 1]];
      if xs[|xs| - 1] in init then FirstOccurrences(init) else FirstOccurrences(init) + [xs[|xs| - 1]]
  }

  lemma {:induction false} CountOfMember<T(!new)>(es: seq<Entry<T>>, i: nat)
    requires i < |es| && NoDuplicates(Keys(es))
    ensures CountOf(es, es[i].key) == es[i].count
  {
    if i > 0 {
      assert Keys(es)[0] != Keys(es)[i];
      assert NoDuplicates(Keys(es[1..])) by {
        assert forall j :: 0 <= j < |es| - 1 ==> Keys(es[1..])[j] == Keys(es)[j + 1];
      }
      CountOfMember(es[1..], i - 1);
    }
  }

  lemma {:induction false} TallyKeys<T(!new)>(xs: seq<T>)
    ensures Keys(Tally(xs)) == FirstOccurrences(xs)
  {
    if xs != [] {
      TallyKeys(xs[..|xs| - 1]);
    }
  }

  lemma {:induction false} TallyCountOf<T(!new)>(xs: seq<T>)
    ensures forall k :: CountOf(Tally(xs), k) == multiset(xs)[k]
  {
    if xs != [] {
      var init, last := xs[..|xs| - 1], xs[|xs| - 1];
      TallyCountOf(init);
      assert multiset(xs) == multiset(init) + multiset{last} by {
        assert xs == init + [last];
      }
      forall k ensures CountOf(Tally(xs), k) == multiset(xs)[k] {
        assert CountOf(Tally(xs), k) == CountOf(Tally(init), k) + (if k == last then 1 else 0);
      }
    }
  }

  lemma {:induction false} TallyTotal<T(!new)>(xs: seq<T>)
    ensures Total(Tally(xs)) == |xs|
  {
    if xs != [] {
      TallyTotal(xs[..|xs| - 1]);
    }
  }

  /** The `Counter` of `xs`: one entry per distinct element, in order of first
      occurrence, each holding how often the element occurs; the counts add up
      to the number of elements. */
  lemma TallyCounts<T(!new)>(xs: seq<T>)
    ensures Keys(Tally(xs)) == FirstOccurrences(xs)
    ensures NoDuplicates(Keys(Tally(xs))) && forall k :: k in Keys(Tally(xs)) <==> k in xs
    ensures forall k :: CountOf(Tally(xs), k) == multiset(xs)[k]
    ensures forall i :: 0 <= i < |Tally(xs)| ==> Tally(xs)[i].count == multiset(xs)[Tally(xs)[i].key] > 0
    ensures Total(Tally(xs)) == |xs|
  {
    TallyKeys(xs);
    TallyCountOf(xs);
    TallyTotal(xs);
    var es := Tally(xs);
    forall i | 0 <= i < |es| ensures es[i].count == multiset(xs)[es[i].key] > 0 {
      CountOfMember(es, i);
      assert Keys(es)[i] in xs;
    }
  }

  function EntryCount<T>(e: Entry<T>): int {
    e.count
  }

  /** `counter.most_common(n)`: the entries by non-increasing count, equal
      counts in insertion order, cut after the first `n`. */
  function MostCommon<T>(es: seq<Entry<T>>, n: nat): seq<Entry<T>> {
    var sorted := StableSort.Sort(es, EntryCount);
    sorted[..if n <= |sorted| then n else |sorted|]
  }

  /** `most_common(n)` returns min(n, |es|) of the entries, by non-increasing
      count, and no entry left out has a higher count than one returned.
      Entries with equal counts keep their order in `es`, and those kept are
      the first ones of that count: for every count, the entries returned
      with it are a prefix of the entries of `es` with it. */
  lemma MostCommonIsTop<T>(es: seq<Entry<T>>, n: nat)
    ensures |MostCommon(es, n)| == if n <= |es| then n else |es|
    ensures StableSort.SortedDesc(MostCommon(es, n), EntryCount)
    ensures multiset(MostCommon(es, n)) <= multiset(es)
    ensures forall i, e :: 0 <= i < |MostCommon(es, n)| && e in multiset(es) - multiset(MostCommon(es, n)) ==>
      MostCommon(es, n)[i].count >= e.count
    ensures forall c :: StableSort.WithKey(MostCommon(es, n), EntryCount, c) <= StableSort.WithKey(es, EntryCount, c)
  {
    var sorted := StableSort.Sort(es, EntryCount);
    StableSort.SortPermutes(es, EntryCount);
    StableSort.SortIsSorted(es, EntryCount);
    var m := if n <= |sorted| then n else |sorted|;
    assert sorted == sorted[..m] + sorted[m..];
    SortedPrefixIsTop(sorted, m);
    forall c ensures StableSort.WithKey(sorted[..m], EntryCount, c) <= StableSort.WithKey(es, EntryCount, c) {
      StableSort.SortIsStable(es, EntryCount);
      StableSort.WithKeyAppend(sorted[..m], sorted[m..], EntryCount, c);
    }
  }

  lemma SortedPrefixIsTop<T>(sorted: seq<Entry<T>>, m: nat)
    requires StableSort.SortedDesc(sorted, EntryCount) && m <= |sorted|
    ensures forall i, e :: 0 <= i < m && e in multiset(sorted) - multiset(sorted[..m]) ==> sorted[i].count >= e.count
  {
    assert sorted == sorted[..m] + sorted[m..];
    forall i, e | 0 <= i < m && e in multiset(sorted) - multiset(sorted[..m]) ensures sorted[i].count >= e.count {
      assert e in sorted[m..];
      var p :| 0 <= p < |sorted| - m && sorted[m..][p] == e;
      assert sorted[m + p] == e;
    }
  }

  /** `Counter(xs).most_common(n)`: `n` entries, or every distinct element
      when there are fewer, by non-increasing count, each with its element's
      true number of occurrences, and no element left out occurs more often
      than one returned. Equal counts are reported in the order their
      elements first occur in `xs`, and those kept are the first ones
      encountered: for every count, the entries returned with it are a prefix
      of the `Counter`'s entries with it, which are in first-occurrence order. */
  lemma MostCommonOfTally<T(!new)>(xs: seq<T>, n: nat)
    ensures |MostCommon(Tally(xs), n)| == if n <= |FirstOccurrences(xs)| then n else |FirstOccurrences(xs)|
    ensures Keys(Tally(xs)) == FirstOccurrences(xs)
    ensures forall c :: StableSort.WithKey(MostCommon(Tally(xs), n), EntryCount, c) <= StableSort.WithKey(Tally(xs), EntryCount, c)
    ensures StableSort.SortedDesc(MostCommon(Tally(xs), n), EntryCount)
    ensures forall e :: e in MostCommon(Tally(xs), n) ==> e.key in xs && e.count == multiset(xs)[e.key]
    ensures forall i, x :: 0 <= i < |MostCommon(Tally(xs), n)| && x in xs && x !in Keys(MostCommon(Tally(xs), n)) ==>
      MostCommon(Tally(xs), n)[i].count >= multiset(xs)[x]
  {
    TallyKeys(xs);
    assert |Keys(Tally(xs))| == |Tally(xs)|;
    MostCommonIsTop(Tally(xs), n);
    TallyTopCounts(xs, n);
  }

  /** The counts `Counter(xs).most_common(n)` reports are true, and no element
      left out occurs more often than a reported one. */
  lemma TallyTopCounts<T(!new)>(xs: seq<T>, n: nat)
    ensures forall e :: e in MostCommon(Tally(xs), n) ==> e.key in xs && e.count == multiset(xs)[e.key]
    ensures forall i, x :: 0 <= i < |MostCommon(Tally(xs), n)| && x in xs && x !in Keys(MostCommon(Tally(xs), n)) ==>
      MostCommon(Tally(xs), n)[i].count >= multiset(xs)[x]
  {
    var top := MostCommon(Tally(xs), n);
    MostCommonIsTop(Tally(xs), n);
    TallyCounts(xs);
    TopEntriesCount(xs, top);
    TopLeavesNoHigher(xs, top);
  }

  lemma TopEntriesCount<T(!new)>(xs: seq<T>, top: seq<Entry<T>>)
    requires multiset(top) <= multiset(Tally(xs))
    requires forall i :: 0 <= i < |Tally(xs)| ==> Tally(xs)[i].count == multiset(xs)[Tally(xs)[i].key] > 0
    ensures forall e :: e in top ==> e.key in xs && e.count == multiset(xs)[e.key]
  {
    var es := Tally(xs);
    forall e | e in top ensures e.key in xs && e.count == multiset(xs)[e.key] {
      assert e in multiset(es);
      var j :| 0 <= j < |es| && es[j] == e;
    }
  }

  lemma TopLeavesNoHigher<T(!new)>(xs: seq<T>, top: seq<Entry<T>>)
    requires forall k :: k in Keys(Tally(xs)) <==> k in xs
    requires forall i :: 0 <= i < |Tally(xs)| ==> Tally(xs)[i].count == multiset(xs)[Tally(xs)[i].key] > 0
    requires forall i, e :: 0 <= i < |top| && e in multiset(Tally(xs)) - multiset(top) ==> top[i].count >= e.count
    ensures forall i, x :: 0 <= i < |top| && x in xs && x !in Keys(top) ==> top[i].count >= multiset(xs)[x]
  {
    var es := Tally(xs);
    forall i, x | 0 <= i < |top| && x in xs && x !in Keys(top) ensures top[i].count >= multiset(xs)[x] {
      assert x in Keys(es);
      var j :| 0 <= j < |es| && Keys(es)[j] == x;
      var e := es[j];
      assert e in multiset(es) - multiset(top);
    }
  }
}
