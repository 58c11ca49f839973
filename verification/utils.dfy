/**
 * The tag utilities of the bucket service (lib/utils.js): cutting a bucket
 * string into `[...]` tags, keeping the tags with a given suffix, the
 * lodash difference of two tag lists, and the lookup of the history slot
 * whose current bucket is a given tag.
 */
module Utils {
  import opened Optional

  /** The JavaScript value handed to `extractTags` as a bucket. */
  datatype Bucket =
    | Text(s: string)           // a string such as "[dt_chrome_regression] [dt_ie_regression]"
    | List(items: seq<string>)  // an array of tags, passed through as it is
    | Other                     // undefined, null, a number, a boolean, an object

  /** What `getDifference` returns: removed tags and added tags. */
  datatype Diff = Diff(oldTags: seq<string>, newTags: seq<string>)

  /** An instant (a JavaScript `Date`); only ever compared and copied. */
  type Timestamp = int

  /** One value of a test's `metaInfo` object. */
  datatype MetaValue =
    | Entry(lastKnownBucket: Option<string>, currentBucket: Option<string>, bucketUpdatedAt: Option<Timestamp>)
      // a history slot; an absent field, `null` and `undefined` are all None
    | NonObject
      // null, a string, a number, or an object with no bucket fields (the legacy top-level values)

  /** A `metaInfo` object: its keys in `Object.keys` order, and the value under each. */
  datatype MetaInfo = MetaInfo(keys: seq<string>, entries: map<string, MetaValue>)

  /** What `getObjForTag` returns when it finds a slot. */
  datatype KeyMeta = KeyMeta(key: string, metaObj: MetaValue)

  /** No string occurs twice in `s`. */
  predicate Distinct(s: seq<string>)
  {
    forall i, j :: 0 <= i < j < |s| ==> s[i] != s[j]
  }

  /** The keys are listed once each, and they are exactly the keys that hold a value. */
  ghost predicate WellFormed(m: MetaInfo)
  {
    && Distinct(m.keys)
    && (forall k :: k in m.entries <==> k in m.keys)
  }

  // ---------------------------------------------------------------------
  // extractTags: the global match of /\[[^\]]+\]/
  // ---------------------------------------------------------------------

  /** A single tag: `[`, at least one character that is not `]`, then `]`. */
  predicate IsTag(t: string)
  {
    && |t| >= 3
    && t[0] == '['
    && t[|t| - 1] == ']'
    && forall k :: 0 <= k < |t| - 1 ==> t[k] != ']'
  }

  /** The index of the first `]` at or after `i`, or `|s|` when there is none. */
  function CloseFrom(s: string, i: nat): (j: nat)
    requires i <= |s|
    ensures i <= j <= |s|
    ensures forall k :: i <= k < j ==> s[k] != ']'
    ensures j < |s| ==> s[j] == ']'
    decreases |s| - i
  {
    if i == |s| || s[i] == ']' then i else CloseFrom(s, i + 1)
  }

  /**
   * Whether the pattern matches starting at `p`: a `[`, then the greedy run
   * of non-`]` characters must be non-empty and be followed by a `]`.
   */
  predicate MatchesAt(s: string, p: nat)
    requires p < |s|
  {
    s[p] == '[' && p + 2 <= CloseFrom(s, p + 1) < |s|
  }

  /** One past the `]` that ends the match starting at `p`. */
  function MatchEnd(s: string, p: nat): (e: nat)
    requires p < |s| && MatchesAt(s, p)
    ensures p + 3 <= e <= |s|
    ensures IsTag(s[p..e])
  {
    CloseFrom(s, p + 1) + 1
  }

  /** Every match at or after `p`, left to right; the scan resumes after each match. */
  function ScanFrom(s: string, p: nat): (tags: seq<string>)
    requires p <= |s|
    ensures forall t :: t in tags ==> IsTag(t)
    decreases |s| - p
  {
    if p == |s| then []
    else if MatchesAt(s, p) then [s[p..MatchEnd(s, p)]] + ScanFrom(s, MatchEnd(s, p))
    else ScanFrom(s, p + 1)
  }

  /**
   * `extractTags`: an array is returned as it is, a value that is neither an
   * array nor a string gives `[]`, and a string gives the list of its tags,
   * or `null` (None) when it holds none.
   */
  function ExtractTags(bucket: Bucket): (r: Option<seq<string>>)
    ensures bucket.List? ==> r == Some(bucket.items)
    ensures bucket.Other? ==> r == Some([])
    ensures bucket.Text? ==> r != Some([])
    ensures bucket.Text? && r.Some? ==> forall t :: t in r.value ==> IsTag(t)
  {
    match bucket
    case List(items) => Some(items)
    case Other => Some([])
    case Text(s) =>
      var tags := ScanFrom(s, 0);
      if tags == [] then None else Some(tags)
  }

  /** The leftmost position at or after `p` where the pattern matches, or `|s|`. */
  function FirstMatch(s: string, p: nat): (q: nat)
    requires p <= |s|
    ensures p <= q <= |s|
    ensures forall r :: p <= r < q ==> !MatchesAt(s, r)
    ensures q < |s| ==> MatchesAt(s, q)
    decreases |s| - p
  {
    if p == |s| || MatchesAt(s, p) then p else FirstMatch(s, p + 1)
  }

  /**
   * The scan takes the leftmost match, then continues right after it: no
   * match is skipped and no two matches overlap.
   */
  lemma {:induction false} ScanFromLeftmost(s: string, p: nat)
    requires p <= |s|
    ensures var q := FirstMatch(s, p);
      ScanFrom(s, p) == if q == |s| then [] else [s[q..MatchEnd(s, q)]] + ScanFrom(s, MatchEnd(s, q))
    decreases |s| - p
  {
    if p < |s| && !MatchesAt(s, p) {
      ScanFromLeftmost(s, p + 1);
    }
  }

  /** A string gives `null` exactly when the pattern matches nowhere in it. */
  lemma ExtractTagsNullIffNoMatch(s: string)
    ensures ExtractTags(Text(s)).None? <==> forall q :: 0 <= q < |s| ==> !MatchesAt(s, q)
  {
    ScanFromLeftmost(s, 0);
  }

  /** The first `]` is found at the same place after a prefix is added in front. */
  lemma {:induction false} CloseFromShift(x: string, y: string, i: nat)
    requires i <= |y|
    ensures CloseFrom(x + y, |x| + i) == |x| + CloseFrom(y, i)
    decreases |y| - i
  {
    if i < |y| && y[i] != ']' {
      CloseFromShift(x, y, i + 1);
    }
  }

  /** A match at position `i` of `y` is the same match at `|x| + i` of `x + y`. */
  lemma MatchShift(x: string, y: string, i: nat)
    requires i < |y|
    ensures MatchesAt(x + y, |x| + i) <==> MatchesAt(y, i)
    ensures MatchesAt(y, i) ==>
              && MatchEnd(x + y, |x| + i) == |x| + MatchEnd(y, i)
              && (x + y)[|x| + i..MatchEnd(x + y, |x| + i)] == y[i..MatchEnd(y, i)]
  {
    assert (x + y)[|x| + i] == y[i];
    CloseFromShift(x, y, i + 1);
  }

  /** Scanning the tail of `x + y` is scanning `y`. */
  lemma {:induction false} ScanFromShift(x: string, y: string, i: nat)
    requires i <= |y|
    ensures ScanFrom(x + y, |x| + i) == ScanFrom(y, i)
    decreases |y| - i
  {
    if i < |y| {
      MatchShift(x, y, i);
      if MatchesAt(y, i) {
        ScanFromShift(x, y, MatchEnd(y, i));
      } else {
        ScanFromShift(x, y, i + 1);
      }
    }
  }

  /** A tag at the front of a string is found first, and the scan goes on after it. */
  lemma ScanTagFirst(t: string, y: string)
    requires IsTag(t)
    ensures ScanFrom(t + y, 0) == [t] + ScanFrom(y, 0)
  {
    var s := t + y;
    var j := CloseFrom(s, 1);
    assert s[|t| - 1] == ']';
    assert forall k :: 1 <= k < |t| - 1 ==> s[k] != ']';
    assert j == |t| - 1;
    assert MatchesAt(s, 0);
    assert s[0..MatchEnd(s, 0)] == t;
    ScanFromShift(t, y, 0);
  }

  /** A stretch with no `[` in it holds no match. */
  lemma {:induction false} ScanSkipsGap(g: string, y: string, k: nat)
    requires k <= |g|
    requires forall i :: 0 <= i < |g| ==> g[i] != '['
    ensures ScanFrom(g + y, k) == ScanFrom(y, 0)
    decreases |g| - k
  {
    if k < |g| {
      assert (g + y)[k] == g[k];
      ScanSkipsGap(g, y, k + 1);
    } else {
      ScanFromShift(g, y, 0);
    }
  }

  /** Tags written one after another, with `sep` between two consecutive tags. */
  function Join(tags: seq<string>, sep: string): string
  {
    if tags == [] then ""
    else if |tags| == 1 then tags[0]
    else tags[0] + sep + Join(tags[1..], sep)
  }

  /** Scanning tags joined by a separator with no `[` gives back exactly those tags. */
  lemma {:induction false} ScanJoin(tags: seq<string>, sep: string)
    requires forall t :: t in tags ==> IsTag(t)
    requires forall i :: 0 <= i < |sep| ==> sep[i] != '['
    ensures ScanFrom(Join(tags, sep), 0) == tags
  {
    if tags == [] {
    } else if |tags| == 1 {
      ScanTagFirst(tags[0], "");
      assert tags[0] + "" == tags[0];
    } else {
      var rest := Join(tags[1..], sep);
      assert Join(tags, sep) == tags[0] + (sep + rest);
      ScanTagFirst(tags[0], sep + rest);
      ScanSkipsGap(sep, rest, 0);
      ScanJoin(tags[1..], sep);
      assert [tags[0]] + tags[1..] == tags;
    }
  }

  /** `extractTags` inverts writing tags out with separators: `null` only for no tags. */
  lemma ExtractTagsJoin(tags: seq<string>, sep: string)
    requires forall t :: t in tags ==> IsTag(t)
    requires forall i :: 0 <= i < |sep| ==> sep[i] != '['
    ensures ExtractTags(Text(Join(tags, sep))) == if tags == [] then None else Some(tags)
  {
    ScanJoin(tags, sep);
  }

  /** The tag list of a bucket as the later lodash calls see it, `null` read as empty. */
  function Tags(bucket: Bucket): seq<string>
  {
    ExtractTags(bucket).GetOr([])
  }

  // ---------------------------------------------------------------------
  // filterTags
  // ---------------------------------------------------------------------

  /** JavaScript's `t.endsWith(suffix)`. */
  predicate EndsWith(t: string, suffix: string)
  {
    |suffix| <= |t| && t[|t| - |suffix|..] == suffix
  }

  /** `tags.filter(tag => tag.endsWith(suffix))`. */
  function KeepEnding(tags: seq<string>, suffix: string): (r: seq<string>)
    ensures |r| <= |tags|
    ensures forall t :: t in r ==> t in tags && EndsWith(t, suffix)
  {
    if tags == [] then []
    else (if EndsWith(tags[0], suffix) then [tags[0]] else []) + KeepEnding(tags[1..], suffix)
  }

  /** Each tag ending with the suffix is kept as often as it occurs; no other tag is kept. */
  lemma {:induction false} KeepEndingCount(tags: seq<string>, suffix: string)
    ensures forall x :: multiset(KeepEnding(tags, suffix))[x] == if EndsWith(x, suffix) then multiset(tags)[x] else 0
  {
    if tags != [] {
      assert tags == [tags[0]] + tags[1..];
      KeepEndingCount(tags[1..], suffix);
    }
  }

  /** The filter keeps order: filtering a concatenation filters each part. */
  lemma {:induction false} KeepEndingAppend(a: seq<string>, b: seq<string>, suffix: string)
    ensures KeepEnding(a + b, suffix) == KeepEnding(a, suffix) + KeepEnding(b, suffix)
  {
    if a == [] {
      assert a + b == b;
    } else {
      assert (a + b)[0] == a[0];
      assert (a + b)[1..] == a[1..] + b;
      KeepEndingAppend(a[1..], b, suffix);
    }
  }

  /**
   * `filterTags`: a falsy list gives `[]`; otherwise each tag ending with the
   * suffix is kept as many times as it occurs, and no other tag is kept.
   */
  function FilterTags(tags: Option<seq<string>>, suffix: string): (r: seq<string>)
    ensures tags.None? ==> r == []
    ensures tags.Some? ==> forall x :: multiset(r)[x] == if EndsWith(x, suffix) then multiset(tags.value)[x] else 0
    ensures forall t :: t in r ==> EndsWith(t, suffix)
  {
    match tags
    case None => []
    case Some(ts) => KeepEndingCount(ts, suffix); KeepEnding(ts, suffix)
  }

  // ---------------------------------------------------------------------
  // getDifference
  // ---------------------------------------------------------------------

  /** The elements of `xs` not in `excluded`, in order, duplicates kept. */
  function Without(xs: seq<string>, excluded: seq<string>): (r: seq<string>)
    ensures |r| <= |xs|
    ensures forall x :: x in r ==> x in xs && x !in excluded
  {
    if xs == [] then []
    else (if xs[0] in excluded then [] else [xs[0]]) + Without(xs[1..], excluded)
  }

  /** Every element of `xs` outside `excluded` keeps all of its occurrences. */
  lemma {:induction false} WithoutCount(xs: seq<string>, excluded: seq<string>)
    ensures forall x :: multiset(Without(xs, excluded))[x] == if x in excluded then 0 else multiset(xs)[x]
  {
    if xs != [] {
      assert xs == [xs[0]] + xs[1..];
      WithoutCount(xs[1..], excluded);
    }
  }

  /** The difference keeps order: it distributes over concatenation of its first list. */
  lemma {:induction false} WithoutAppend(a: seq<string>, b: seq<string>, excluded: seq<string>)
    ensures Without(a + b, excluded) == Without(a, excluded) + Without(b, excluded)
  {
    if a == [] {
      assert a + b == b;
    } else {
      assert (a + b)[0] == a[0];
      assert (a + b)[1..] == a[1..] + b;
      var head := if a[0] in excluded then [] else [a[0]];
      assert Without(a + b, excluded) == head + Without(a[1..] + b, excluded);
      WithoutAppend(a[1..], b, excluded);
      assert head + (Without(a[1..], excluded) + Without(b, excluded))
          == (head + Without(a[1..], excluded)) + Without(b, excluded);
    }
  }

  /** lodash `_.difference(first, values)`: a first argument that is not an array gives `[]`, `null` values exclude nothing. */
  function Difference(first: Option<seq<string>>, values: Option<seq<string>>): (r: seq<string>)
    ensures first.None? ==> r == []
    ensures first.Some? ==> forall x :: multiset(r)[x] == if x in values.GetOr([]) then 0 else multiset(first.value)[x]
    ensures forall x :: x in r <==> first.Some? && x in first.value && x !in values.GetOr([])
    ensures first.Some? ==> r == Without(first.value, values.GetOr([]))
  {
    match first
    case None => []
    case Some(xs) =>
      var excluded := values.GetOr([]);
      WithoutCount(xs, excluded);
      var r := Without(xs, excluded);
      assert forall x :: x in r <==> multiset(r)[x] > 0;
      r
  }

  /**
   * `getDifference`: the removed tags are the old tags missing from the new
   * bucket (duplicates kept), the added tags the new ones missing from the
   * old bucket; the two lists share no tag.
   */
  function GetDifference(oldBucket: Bucket, newBucket: Bucket): (d: Diff)
    ensures forall x :: multiset(d.oldTags)[x] == if x in Tags(newBucket) then 0 else multiset(Tags(oldBucket))[x]
    ensures forall x :: multiset(d.newTags)[x] == if x in Tags(oldBucket) then 0 else multiset(Tags(newBucket))[x]
    ensures forall x :: x in d.oldTags <==> x in Tags(oldBucket) && x !in Tags(newBucket)
    ensures forall x :: x in d.newTags <==> x in Tags(newBucket) && x !in Tags(oldBucket)
    ensures forall x :: !(x in d.oldTags && x in d.newTags)
  {
    var oldTags := ExtractTags(oldBucket);
    var newTags := ExtractTags(newBucket);
    Diff(Difference(oldTags, newTags), Difference(newTags, oldTags))
  }

  /** A bucket compared with itself has neither removed nor added tags. */
  lemma GetDifferenceSelf(bucket: Bucket)
    ensures GetDifference(bucket, bucket) == Diff([], [])
  {
  }

  // ---------------------------------------------------------------------
  // getObjForTag
  // ---------------------------------------------------------------------

  /** A slot object whose `currentBucket` is `tag`. */
  predicate Tracks(v: MetaValue, tag: string)
  {
    v.Entry? && v.currentBucket == Some(tag)
  }

  /** Key `k` holds a slot tracking `tag` and is not among the keys to pass over. */
  predicate Claimable(k: string, entries: map<string, MetaValue>, tag: string, skip: set<string>)
  {
    k in entries && k !in skip && Tracks(entries[k], tag)
  }

  /** The first position in `keys` whose key is claimable, or `|keys|`. */
  function FirstClaimable(keys: seq<string>, entries: map<string, MetaValue>, tag: string, skip: set<string>): (i: nat)
    ensures i <= |keys|
    ensures forall j :: 0 <= j < i ==> !Claimable(keys[j], entries, tag, skip)
    ensures i < |keys| ==> Claimable(keys[i], entries, tag, skip)
  {
    if keys == [] then 0
    else if Claimable(keys[0], entries, tag, skip) then 0
    else 1 + FirstClaimable(keys[1..], entries, tag, skip)
  }

  /** No key of `m` holds a slot tracking `tag`. */
  predicate NoneTracking(m: MetaInfo, tag: string)
  {
    forall j :: 0 <= j < |m.keys| ==> !Claimable(m.keys[j], m.entries, tag, {})
  }

  /** Position `i` holds the first key, in key order, whose slot tracks `tag`. */
  predicate FirstTracking(m: MetaInfo, tag: string, i: int)
  {
    && 0 <= i < |m.keys|
    && Claimable(m.keys[i], m.entries, tag, {})
    && forall j :: 0 <= j < i ==> !Claimable(m.keys[j], m.entries, tag, {})
  }

  /**
   * `getObjForTag`: the first key in key order whose value is a slot object
   * with `currentBucket === tag`, paired with that value; `null` when
   * `metaInfo` is falsy, when nothing matches, and also when the first
   * matching key is the (falsy) empty string.
   */
  function GetObjForTag(metaInfo: Option<MetaInfo>, tag: string): (r: Option<KeyMeta>)
    ensures metaInfo.None? ==> r.None?
    ensures metaInfo.Some? && NoneTracking(metaInfo.value, tag) ==> r.None?
    ensures r.Some? ==> && metaInfo.Some?
                        && r.value.key != ""
                        && (exists i :: FirstTracking(metaInfo.value, tag, i) && metaInfo.value.keys[i] == r.value.key)
                        && r.value.key in metaInfo.value.entries
                        && r.value.metaObj == metaInfo.value.entries[r.value.key]
    ensures metaInfo.Some? && (exists i :: FirstTracking(metaInfo.value, tag, i) && metaInfo.value.keys[i] != "") ==> r.Some?
  {
    match metaInfo
    case None => None
    case Some(m) =>
      var i := FirstClaimable(m.keys, m.entries, tag, {});
      if i == |m.keys| || m.keys[i] == "" then None
      else Some(KeyMeta(m.keys[i], m.entries[m.keys[i]]))
  }
}
