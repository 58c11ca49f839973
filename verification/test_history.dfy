/**
 * The bucket history of a test (lib/routes/test.js): when a test's bucket
 * changes, `updateOne` pairs the i-th removed tag with the i-th added tag
 * and records the pair in a `metaInfo` slot; when a test is created,
 * `createOne` seeds one slot per tag ending in `_new]`.
 *
 * New slot keys come from `mint`, which stands for the ObjectIds the
 * source mints: distinct, and never already a key of the `metaInfo` at hand.
 */
module TestHistory {
  import opened Optional
  import opened Utils

  /** The two top-level keys of the old `metaInfo` layout, deleted on every bucket update. */
  const LegacyKeys: set<string> := {"lastKnownBucket", "bucketUpdatedAt"}

  /** The suffix that marks a tag to be given a history slot when the test is created. */
  const NewTagSuffix: string := "_new]"

  /** The set of elements of `s`. */
  function Elems(s: seq<string>): set<string>
  {
    set x | x in s
  }

  /** `metaInfo[k] = v` on a JavaScript object: a key already there keeps its place, a new key goes last. */
  function Put(m: MetaInfo, k: string, v: MetaValue): (r: MetaInfo)
    requires WellFormed(m)
    ensures WellFormed(r)
    ensures r.entries == m.entries[k := v]
  {
    MetaInfo(if k in m.entries then m.keys else m.keys + [k], m.entries[k := v])
  }

  /** The keys of `keys` outside `gone`, in order. */
  function DropKeys(keys: seq<string>, gone: set<string>): (r: seq<string>)
    ensures forall x :: x in r <==> x in keys && x !in gone
    ensures Distinct(keys) ==> Distinct(r)
  {
    if keys == [] then []
    else (if keys[0] in gone then [] else [keys[0]]) + DropKeys(keys[1..], gone)
  }

  /** `delete metaInfo[k]` for every `k` in `gone`. */
  function DeleteKeys(m: MetaInfo, gone: set<string>): (r: MetaInfo)
    requires WellFormed(m)
    ensures WellFormed(r)
    ensures r.entries == m.entries - gone
  {
    MetaInfo(DropKeys(m.keys, gone), m.entries - gone)
  }

  /** `diff.newTags[i]`: undefined (None) past the end of the list. */
  function NewAt(newTags: seq<string>, i: nat): Option<string>
  {
    if i < |newTags| then Some(newTags[i]) else None
  }

  /** The slot value written for the i-th removed tag. */
  function Transition(diff: Diff, i: nat, now: Timestamp): MetaValue
    requires i < |diff.oldTags|
  {
    Entry(Some(diff.oldTags[i]), NewAt(diff.newTags, i), Some(now))
  }

  /**
   * The existing key that `getObjForTag` hands back for `tag` once the keys
   * in `claimed` have been re-pointed: the first key of `meta`, in key
   * order, outside `claimed`, whose slot tracks `tag`; None when there is
   * none or when that key is the empty string.
   */
  function Reusable(meta: MetaInfo, claimed: set<string>, tag: string): Option<string>
  {
    var i := FirstClaimable(meta.keys, meta.entries, tag, claimed);
    if i == |meta.keys| || meta.keys[i] == "" then None else Some(meta.keys[i])
  }

  /** The keys of `slots` that were not keys of `existing`, in the order they were added. */
  function Minted(slots: seq<string>, existing: map<string, MetaValue>): (r: seq<string>)
    ensures forall x :: x in r ==> x in slots && x !in existing
  {
    if slots == [] then []
    else
      var last := slots[|slots| - 1];
      Minted(slots[..|slots| - 1], existing) + (if last in existing then [] else [last])
  }

  /** `mint` can supply `n` new keys for `meta`. */
  predicate KeyOracle(mint: seq<string>, meta: MetaInfo, n: nat)
  {
    && n <= |mint|
    && Distinct(mint)
    && forall k :: k in mint ==> k !in meta.entries && k !in LegacyKeys
  }

  /**
   * `slots[j]`, the key written for the j-th removed tag, is the existing
   * slot `getObjForTag` finds for that tag at that point of the loop, or a
   * new key when it finds none.
   */
  ghost predicate Chose(meta: MetaInfo, diff: Diff, mint: seq<string>, slots: seq<string>, j: nat)
    requires j < |slots| && j < |diff.oldTags|
  {
    match Reusable(meta, Elems(slots[..j]), diff.oldTags[j])
    case Some(k) => slots[j] == k
    case None => slots[j] in mint && slots[j] !in meta.entries
  }

  /**
   * What the update loop and the two `delete`s do to `meta`, with `slots[i]`
   * the key written for the i-th removed tag:
   * - the key is the existing slot now tracking that tag if there is one,
   *   otherwise a new key;
   * - that slot ends up holding the removed tag as `lastKnownBucket`, the
   *   added tag at the same index (or nothing) as `currentBucket`, and `now`;
   * - every other slot keeps its value, no slot disappears except the two
   *   legacy keys, and new keys come after the old ones in key order.
   */
  ghost predicate Reconciled(meta: MetaInfo, diff: Diff, now: Timestamp, mint: seq<string>,
                             slots: seq<string>, result: MetaInfo)
  {
    && |slots| == |diff.oldTags|
    && Distinct(slots)
    && (forall i :: 0 <= i < |slots| ==> Chose(meta, diff, mint, slots, i))
    && (forall i :: 0 <= i < |slots| && slots[i] !in LegacyKeys ==>
          slots[i] in result.entries && result.entries[slots[i]] == Transition(diff, i, now))
    && (forall k :: k in meta.entries && k !in slots && k !in LegacyKeys ==>
          k in result.entries && result.entries[k] == meta.entries[k])
    && result.entries.Keys == (meta.entries.Keys + Elems(slots)) - LegacyKeys
    && result.keys == DropKeys(meta.keys + Minted(slots, meta.entries), LegacyKeys)
  }

  /**
   * Once the claimed slots and the new keys no longer track `tag`, the
   * lookup in the updated `metaInfo` finds what `Reusable` names.
   */
  lemma LookupAfterClaims(meta: MetaInfo, m: MetaInfo, slots: seq<string>, minted: seq<string>, tag: string)
    requires WellFormed(meta)
    requires m.keys == meta.keys + minted
    requires forall k :: k in minted ==> k !in meta.entries && k in slots
    requires forall k :: k in meta.entries && k !in slots ==> k in m.entries && m.entries[k] == meta.entries[k]
    requires forall k :: k in m.entries && k in slots ==> !Tracks(m.entries[k], tag)
    ensures match Reusable(meta, Elems(slots), tag)
            case None => GetObjForTag(Some(m), tag).None?
            case Some(k) => GetObjForTag(Some(m), tag) == Some(KeyMeta(k, m.entries[k]))
  {
    var claimed := Elems(slots);
    var i1 := FirstClaimable(m.keys, m.entries, tag, {});
    var i2 := FirstClaimable(meta.keys, meta.entries, tag, claimed);
    forall j | 0 <= j < |m.keys|
      ensures Claimable(m.keys[j], m.entries, tag, {}) <==>
              j < |meta.keys| && Claimable(meta.keys[j], meta.entries, tag, claimed)
    {
      var k := m.keys[j];
      if j < |meta.keys| {
        assert k == meta.keys[j] && k in meta.entries;
        if k in slots {
          assert k in claimed;
        } else {
          assert k !in claimed;
        }
      } else {
        assert k == minted[j - |meta.keys|];
        assert k in slots;
      }
    }
    if i2 < |meta.keys| {
      assert Claimable(m.keys[i2], m.entries, tag, {});
      assert i1 == i2;
      assert m.keys[i1] == meta.keys[i2];
    } else {
      assert i1 == |m.keys|;
    }
  }

  /** The state of the update loop after `|slots|` rounds, `used` of them on new keys. */
  ghost predicate Progress(meta: MetaInfo, diff: Diff, now: Timestamp, mint: seq<string>,
                           used: nat, slots: seq<string>, m: MetaInfo)
  {
    && |slots| <= |diff.oldTags|
    && used <= |slots| && used <= |mint|
    && WellFormed(m)
    && Distinct(slots)
    && Minted(slots, meta.entries) == mint[..used]
    && m.keys == meta.keys + mint[..used]
    && m.entries.Keys == meta.entries.Keys + Elems(slots)
    && (forall k :: k in slots ==> k in meta.entries || k in mint[..used])
    && (forall k :: k in meta.entries && k !in slots ==> m.entries[k] == meta.entries[k])
    && (forall j :: 0 <= j < |slots| ==> m.entries[slots[j]] == Transition(diff, j, now))
    && (forall j :: 0 <= j < |slots| ==> Chose(meta, diff, mint, slots, j))
  }

  /** No slot written so far tracks a tag that is still to be removed. */
  lemma ClaimedSlotsMoved(meta: MetaInfo, diff: Diff, now: Timestamp, mint: seq<string>,
                          used: nat, slots: seq<string>, m: MetaInfo)
    requires Progress(meta, diff, now, mint, used, slots, m)
    requires |slots| < |diff.oldTags|
    requires forall x :: !(x in diff.oldTags && x in diff.newTags)
    ensures forall k :: k in m.entries && k in slots ==> !Tracks(m.entries[k], diff.oldTags[|slots|])
  {
    var tag := diff.oldTags[|slots|];
    assert tag in diff.oldTags;
    forall k | k in m.entries && k in slots
      ensures !Tracks(m.entries[k], tag)
    {
      var j :| 0 <= j < |slots| && slots[j] == k;
      if j < |diff.newTags| {
        assert diff.newTags[j] in diff.newTags;
      }
    }
  }

  /** What `getObjForTag` and the key oracle give in one round of the update loop. */
  lemma StepKey(meta: MetaInfo, m: MetaInfo, mint: seq<string>, used: nat, slots: seq<string>,
                tag: string, key: string, used': nat)
    requires WellFormed(meta)
    requires Distinct(mint) && forall k :: k in mint ==> k !in meta.entries
    requires used <= |mint|
    requires m.keys == meta.keys + mint[..used]
    requires forall k :: k in mint[..used] ==> k in slots
    requires forall k :: k in slots ==> k in meta.entries || k in mint[..used]
    requires forall k :: k in meta.entries && k !in slots ==> k in m.entries && m.entries[k] == meta.entries[k]
    requires forall k :: k in m.entries && k in slots ==> !Tracks(m.entries[k], tag)
    requires var found := GetObjForTag(Some(m), tag);
             if found.Some? then key == found.value.key && used' == used
             else used < |mint| && key == mint[used] && used' == used + 1
    ensures key !in slots && used' <= |mint|
    ensures key in meta.entries ==> used' == used
    ensures key !in meta.entries ==> key in mint && mint[..used'] == mint[..used] + [key]
    ensures match Reusable(meta, Elems(slots), tag)
            case Some(k) => key == k
            case None => key in mint && key !in meta.entries
  {
    LookupAfterClaims(meta, m, slots, mint[..used], tag);
    if GetObjForTag(Some(m), tag).None? {
      assert mint[..used'] == mint[..used] + [key];
    }
  }

  /** The choices made in earlier rounds stay valid once one more key is appended. */
  lemma ChoseExtend(meta: MetaInfo, diff: Diff, mint: seq<string>, slots: seq<string>, key: string)
    requires |slots| < |diff.oldTags|
    requires forall j :: 0 <= j < |slots| ==> Chose(meta, diff, mint, slots, j)
    requires match Reusable(meta, Elems(slots), diff.oldTags[|slots|])
             case Some(k) => key == k
             case None => key in mint && key !in meta.entries
    ensures forall j :: 0 <= j < |slots + [key]| ==> Chose(meta, diff, mint, slots + [key], j)
  {
    var slots' := slots + [key];
    forall j | 0 <= j < |slots'|
      ensures Chose(meta, diff, mint, slots', j)
    {
      assert slots'[..j] == slots[..j];
      if j == |slots| {
        assert slots[..j] == slots;
      } else {
        assert Chose(meta, diff, mint, slots, j);
      }
    }
  }

  /** Writing the round's slot value keeps the entry part of `Progress`. */
  lemma EntriesExtend(meta: MetaInfo, diff: Diff, now: Timestamp, slots: seq<string>,
                      m: MetaInfo, key: string)
    requires |slots| < |diff.oldTags|
    requires key !in slots
    requires m.entries.Keys == meta.entries.Keys + Elems(slots)
    requires forall k :: k in meta.entries && k !in slots ==> m.entries[k] == meta.entries[k]
    requires forall j :: 0 <= j < |slots| ==> m.entries[slots[j]] == Transition(diff, j, now)
    ensures var m' := m.entries[key := Transition(diff, |slots|, now)];
            && m'.Keys == meta.entries.Keys + Elems(slots + [key])
            && (forall k :: k in meta.entries && k !in slots + [key] ==> m'[k] == meta.entries[k])
            && (forall j :: 0 <= j < |slots + [key]| ==> m'[(slots + [key])[j]] == Transition(diff, j, now))
  {
    assert Elems(slots + [key]) == Elems(slots) + {key};
  }

  /** Appending a key to `slots` adds it to `Minted` exactly when it is new. */
  lemma MintedAppend(slots: seq<string>, existing: map<string, MetaValue>, key: string)
    ensures Minted(slots + [key], existing) == Minted(slots, existing) + (if key in existing then [] else [key])
  {
    var slots' := slots + [key];
    assert slots'[..|slots'| - 1] == slots;
  }

  /** Appending the round's key keeps `Minted` equal to the prefix of `mint` used so far. */
  lemma MintedExtend(existing: map<string, MetaValue>, mint: seq<string>, used: nat, slots: seq<string>,
                     key: string, used': nat)
    requires used <= |mint| && used' <= |mint|
    requires Minted(slots, existing) == mint[..used]
    requires key in existing ==> used' == used
    requires key !in existing ==> mint[..used'] == mint[..used] + [key]
    ensures Minted(slots + [key], existing) == mint[..used']
  {
    MintedAppend(slots, existing, key);
  }

  /** Appending the round's key keeps the key-order part of `Progress`. */
  lemma KeysExtend(meta: MetaInfo, mint: seq<string>, used: nat, slots: seq<string>,
                   m: MetaInfo, key: string, used': nat)
    requires used <= |mint| && used' <= |mint|
    requires key !in slots
    requires m.keys == meta.keys + mint[..used]
    requires m.entries.Keys == meta.entries.Keys + Elems(slots)
    requires key in meta.entries ==> used' == used
    requires key !in meta.entries ==> mint[..used'] == mint[..used] + [key]
    ensures (if key in m.entries then m.keys else m.keys + [key]) == meta.keys + mint[..used']
  {
    if key !in meta.entries {
      assert key !in Elems(slots);
      assert m.keys + [key] == meta.keys + (mint[..used] + [key]);
    }
  }

  /** Every key written so far is an old key or one taken from `mint`. */
  lemma SlotsFromExtend(meta: MetaInfo, mint: seq<string>, used: nat, slots: seq<string>,
                        key: string, used': nat)
    requires used <= used' <= |mint|
    requires forall k :: k in slots ==> k in meta.entries || k in mint[..used]
    requires key !in meta.entries ==> key in mint[..used']
    ensures forall k :: k in slots + [key] ==> k in meta.entries || k in mint[..used']
  {
    assert forall k :: k in mint[..used] ==> k in mint[..used'];
  }

  /** The key chosen in one round of the update loop, in terms of `Reusable` and `mint`. */
  lemma StepChoice(meta: MetaInfo, diff: Diff, now: Timestamp, mint: seq<string>,
                   used: nat, slots: seq<string>, m: MetaInfo, key: string, used': nat)
    requires WellFormed(meta)
    requires Progress(meta, diff, now, mint, used, slots, m)
    requires |slots| < |diff.oldTags|
    requires KeyOracle(mint, meta, |diff.oldTags|)
    requires forall x :: !(x in diff.oldTags && x in diff.newTags)
    requires var found := GetObjForTag(Some(m), diff.oldTags[|slots|]);
             if found.Some? then key == found.value.key && used' == used
             else used < |mint| && key == mint[used] && used' == used + 1
    ensures key !in slots && used' <= |mint|
    ensures key in meta.entries ==> used' == used
    ensures key !in meta.entries ==> key in mint && mint[..used'] == mint[..used] + [key]
    ensures match Reusable(meta, Elems(slots), diff.oldTags[|slots|])
            case Some(k) => key == k
            case None => key in mint && key !in meta.entries
  {
    ClaimedSlotsMoved(meta, diff, now, mint, used, slots, m);
    StepKey(meta, m, mint, used, slots, diff.oldTags[|slots|], key, used');
  }

  /** A key not yet in a list of distinct keys can be appended to it. */
  lemma DistinctAppend(s: seq<string>, key: string)
    requires Distinct(s) && key !in s
    ensures Distinct(s + [key])
  {
  }

  /** One round of the update loop keeps `Progress`. */
  lemma ProgressStep(meta: MetaInfo, diff: Diff, now: Timestamp, mint: seq<string>,
                     used: nat, slots: seq<string>, m: MetaInfo, key: string, used': nat)
    requires Progress(meta, diff, now, mint, used, slots, m)
    requires |slots| < |diff.oldTags|
    requires key !in slots && used' <= |mint|
    requires key in meta.entries ==> used' == used
    requires key !in meta.entries ==> key in mint && mint[..used'] == mint[..used] + [key]
    requires match Reusable(meta, Elems(slots), diff.oldTags[|slots|])
             case Some(k) => key == k
             case None => key in mint && key !in meta.entries
    ensures Progress(meta, diff, now, mint, used', slots + [key], Put(m, key, Transition(diff, |slots|, now)))
  {
    ChoseExtend(meta, diff, mint, slots, key);
    EntriesExtend(meta, diff, now, slots, m, key);
    MintedExtend(meta.entries, mint, used, slots, key, used');
    KeysExtend(meta, mint, used, slots, m, key, used');
    SlotsFromExtend(meta, mint, used, slots, key, used');
    DistinctAppend(slots, key);
  }

  /** After the last round, deleting the legacy keys gives a reconciled `metaInfo`. */
  lemma ProgressDone(meta: MetaInfo, diff: Diff, now: Timestamp, mint: seq<string>,
                     used: nat, slots: seq<string>, m: MetaInfo)
    requires WellFormed(meta)
    requires Progress(meta, diff, now, mint, used, slots, m)
    requires |slots| == |diff.oldTags|
    ensures Reconciled(meta, diff, now, mint, slots, DeleteKeys(m, LegacyKeys))
  {
  }

  /**
   * The loop of `updateOne` over the removed tags, followed by the deletion
   * of the legacy keys. `oldBucket` is the stored bucket, `newBucket` the
   * submitted one, `now` the single `Date` taken before the loop.
   */
  method ReconcileHistory(meta: MetaInfo, oldBucket: string, newBucket: string, now: Timestamp, mint: seq<string>)
    returns (result: MetaInfo, slots: seq<string>)
    requires WellFormed(meta)
    requires KeyOracle(mint, meta, |GetDifference(Text(oldBucket), Text(newBucket)).oldTags|)
    ensures WellFormed(result)
    ensures Reconciled(meta, GetDifference(Text(oldBucket), Text(newBucket)), now, mint, slots, result)
  {
    var diff := GetDifference(Text(oldBucket), Text(newBucket));
    var m := meta;
    var used := 0;
    slots := [];
    assert Elems(slots) == {};
    for i := 0 to |diff.oldTags|
      invariant |slots| == i
      invariant Progress(meta, diff, now, mint, used, slots, m)
    {
      var found := GetObjForTag(Some(m), diff.oldTags[i]);
      var key;
      var used' := used;
      if found.Some? {
        key := found.value.key;
      } else {
        key := mint[used];
        used' := used + 1;
      }
      StepChoice(meta, diff, now, mint, used, slots, m, key, used');
      ProgressStep(meta, diff, now, mint, used, slots, m, key, used');
      m := Put(m, key, Transition(diff, i, now));
      slots := slots + [key];
      used := used';
    }
    ProgressDone(meta, diff, now, mint, used, slots, m);
    result := DeleteKeys(m, LegacyKeys);
  }

  /**
   * Resubmitting the stored bucket writes no slot: the history only loses
   * the two legacy keys.
   */
  lemma ReconcileSameBucket(meta: MetaInfo, bucket: string, now: Timestamp, mint: seq<string>,
                            slots: seq<string>, result: MetaInfo)
    requires WellFormed(meta)
    requires Reconciled(meta, GetDifference(Text(bucket), Text(bucket)), now, mint, slots, result)
    ensures slots == []
    ensures result == DeleteKeys(meta, LegacyKeys)
  {
    GetDifferenceSelf(Text(bucket));
    assert Elems(slots) == {};
    assert meta.keys + Minted(slots, meta.entries) == meta.keys;
    assert result.entries == meta.entries - LegacyKeys;
  }

  /** The tags of a new test's bucket that get a history slot. */
  function SeedTags(bucket: string): seq<string>
  {
    FilterTags(ExtractTags(Text(bucket)), NewTagSuffix)
  }

  /**
   * `meta` holds one slot per tag of `tags`, in order, under the first
   * `|tags|` keys of `mint`: each with an empty last bucket, the tag as
   * current bucket and the time `now`; no other slot.
   */
  ghost predicate SlotsFor(tags: seq<string>, now: Timestamp, mint: seq<string>, meta: MetaInfo)
  {
    && WellFormed(meta)
    && |tags| <= |mint|
    && meta.keys == mint[..|tags|]
    && forall i :: 0 <= i < |tags| ==>
         mint[i] in meta.entries && meta.entries[mint[i]] == Entry(Some(""), Some(tags[i]), Some(now))
  }

  /** What the `forEach` of `createOne` builds from the `_new]` tags of the bucket. */
  ghost predicate Seeded(bucket: string, now: Timestamp, mint: seq<string>, meta: MetaInfo)
  {
    SlotsFor(SeedTags(bucket), now, mint, meta)
  }

  /** Adding the slot of one more tag under the next fresh key extends the seeded slots. */
  lemma SlotsForStep(tags: seq<string>, i: nat, now: Timestamp, mint: seq<string>, meta: MetaInfo)
    requires Distinct(mint) && i < |tags| && |tags| <= |mint|
    requires SlotsFor(tags[..i], now, mint, meta)
    ensures SlotsFor(tags[..i + 1], now, mint, Put(meta, mint[i], Entry(Some(""), Some(tags[i]), Some(now))))
  {
    assert mint[i] !in mint[..i];
    assert mint[..i + 1] == mint[..i] + [mint[i]];
    var m' := Put(meta, mint[i], Entry(Some(""), Some(tags[i]), Some(now)));
    forall j | 0 <= j < i + 1
      ensures mint[j] in m'.entries && m'.entries[mint[j]] == Entry(Some(""), Some(tags[..i + 1][j]), Some(now))
    {
      if j < i {
        assert tags[..i][j] == tags[..i + 1][j];
        assert mint[j] != mint[i];
      }
    }
  }

  /** The `forEach` of `createOne`. */
  method SeedHistory(bucket: string, now: Timestamp, mint: seq<string>) returns (meta: MetaInfo)
    requires Distinct(mint) && |SeedTags(bucket)| <= |mint|
    ensures Seeded(bucket, now, mint, meta)
  {
    var tags := SeedTags(bucket);
    meta := MetaInfo([], map[]);
    for i := 0 to |tags|
      invariant SlotsFor(tags[..i], now, mint, meta)
    {
      SlotsForStep(tags, i, now, mint, meta);
      meta := Put(meta, mint[i], Entry(Some(""), Some(tags[i]), Some(now)));
    }
    assert tags[..|tags|] == tags;
  }

  /**
   * A slot seeded for a `_new]` tag at creation is the one `getObjForTag`
   * hands back for that tag, so the first update that removes the tag
   * records the change in that slot rather than in a new one.
   */
  lemma SeededLookup(bucket: string, now: Timestamp, mint: seq<string>, meta: MetaInfo, i: nat)
    requires Seeded(bucket, now, mint, meta)
    requires i < |SeedTags(bucket)|
    requires forall j :: 0 <= j < i ==> SeedTags(bucket)[j] != SeedTags(bucket)[i]
    requires mint[i] != ""
    ensures GetObjForTag(Some(meta), SeedTags(bucket)[i]) == Some(KeyMeta(mint[i], meta.entries[mint[i]]))
  {
    var tags := SeedTags(bucket);
    var tag := tags[i];
    assert meta.keys[i] == mint[i];
    forall j | 0 <= j < i
      ensures !Claimable(meta.keys[j], meta.entries, tag, {})
    {
      assert meta.keys[j] == mint[j];
    }
    assert FirstTracking(meta, tag, i);
  }
}
