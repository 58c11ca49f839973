/**
 * The concrete cases of the repository's unit and integration tests
 * (test/unit/utils-spec.js, test/integration/bucket-service-spec.js),
 * stated about the model.
 */
module Scenarios {
  import opened Optional
  import opened Utils
  import opened TestHistory

  const Chrome: string := "[dt_chrome_regression]"
  const ChromeNew: string := "[dt_chrome_regression_new]"
  const ChromeTut: string := "[dt_chrome_regression_tut]"
  const Ie: string := "[dt_ie_regression]"

  /** A bucket holding a single tag gives that tag. */
  lemma OneTag(a: string)
    requires IsTag(a)
    ensures ExtractTags(Text(a)) == Some([a])
  {
    ExtractTagsJoin([a], " ");
  }

  /** A bucket holding two tags separated by a space, as the tests write them, gives both in order. */
  lemma TwoTags(a: string, b: string)
    requires IsTag(a) && IsTag(b)
    ensures ExtractTags(Text(a + " " + b)) == Some([a, b])
  {
    ExtractTagsJoin([a, b], " ");
    assert [a, b][1..] == [b];
  }

  /** Two buckets sharing their second tag: only the first tags are removed and added. */
  lemma SharedTagDropped(a: string, b: string, c: string)
    requires IsTag(a) && IsTag(b) && IsTag(c)
    requires a != b && a != c && b != c
    ensures GetDifference(Text(a + " " + c), Text(b + " " + c)) == Diff([a], [b])
  {
    TwoTags(a, c);
    TwoTags(b, c);
    assert [a, c][1..] == [c] && [b, c][1..] == [c];
    assert Without([c], [b, c]) == [] && Without([c], [a, c]) == [];
  }

  /** `extractTags('[dt_chrome_regression] [dt_ie_regression]')` lists both tags in order. */
  lemma ExtractTagsExample()
    ensures ExtractTags(Text(Chrome + " " + Ie)) == Some([Chrome, Ie])
  {
    assert IsTag(Chrome) && IsTag(Ie);
    TwoTags(Chrome, Ie);
  }

  /** `filterTags` keeps the `_new]` tag, and gives `[]` for a `null` list. */
  lemma FilterTagsExample()
    ensures FilterTags(Some([ChromeNew, Ie]), "_new]") == [ChromeNew]
    ensures FilterTags(None, "_new]") == []
  {
    assert EndsWith(ChromeNew, "_new]");
    assert !EndsWith(Ie, "_new]");
    assert [ChromeNew, Ie][1..] == [Ie];
    assert KeepEnding([Ie], "_new]") == [];
  }

  /**
   * `getDifference('[dt_chrome_regression_new] [dt_ie_regression]',
   * '[dt_chrome_regression] [dt_ie_regression]')`: the tag present in both
   * is dropped from both sides.
   */
  lemma GetDifferenceExample()
    ensures GetDifference(Text(ChromeNew + " " + Ie), Text(Chrome + " " + Ie)) == Diff([ChromeNew], [Chrome])
  {
    assert IsTag(ChromeNew) && IsTag(Chrome) && IsTag(Ie);
    assert ChromeNew != Chrome && ChromeNew != Ie && Chrome != Ie;
    SharedTagDropped(ChromeNew, Chrome, Ie);
  }

  /**
   * `getObjForTag` on the two-slot `metaInfo` of the unit test finds the
   * second slot, whose current bucket is the tag; on `null` it gives `null`.
   */
  lemma GetObjForTagExample(t1: Timestamp, t2: Timestamp)
    ensures var safari := Entry(Some("[dt_safari_regression_tut]"), None, Some(t1));
            var chrome := Entry(Some(ChromeTut), Some(ChromeNew), Some(t2));
            var m := MetaInfo(["59f26864274f9a0800049b40", "5919ef2665e0720600adea3e"],
                              map["59f26864274f9a0800049b40" := safari, "5919ef2665e0720600adea3e" := chrome]);
            GetObjForTag(Some(m), ChromeNew) == Some(KeyMeta("5919ef2665e0720600adea3e", chrome))
    ensures GetObjForTag(None, ChromeNew) == None
  {
    var safari := Entry(Some("[dt_safari_regression_tut]"), None, Some(t1));
    var chrome := Entry(Some(ChromeTut), Some(ChromeNew), Some(t2));
    var m := MetaInfo(["59f26864274f9a0800049b40", "5919ef2665e0720600adea3e"],
                      map["59f26864274f9a0800049b40" := safari, "5919ef2665e0720600adea3e" := chrome]);
    assert !Claimable(m.keys[0], m.entries, ChromeNew, {});
    assert FirstTracking(m, ChromeNew, 1);
  }

  /** Replacing a single-tag bucket by another single tag removes the one and adds the other. */
  lemma OneTagReplaced(a: string, b: string)
    requires IsTag(a) && IsTag(b) && a != b
    ensures GetDifference(Text(a), Text(b)) == Diff([a], [b])
  {
    OneTag(a);
    OneTag(b);
  }

  /**
   * On an empty history, one removed tag gives exactly one slot: a new key
   * holding the transition of that tag.
   */
  lemma OneRemovalOnEmptyHistory(diff: Diff, now: Timestamp, mint: seq<string>, slots: seq<string>, result: MetaInfo)
    requires |diff.oldTags| == 1
    requires KeyOracle(mint, MetaInfo([], map[]), 1)
    requires Reconciled(MetaInfo([], map[]), diff, now, mint, slots, result)
    ensures result.keys == [slots[0]]
    ensures result.entries == map[slots[0] := Transition(diff, 0, now)]
  {
    var empty := MetaInfo([], map[]);
    assert slots[..0] == [];
    assert Chose(empty, diff, mint, slots, 0);
    assert slots[0] in mint;
    assert slots == [slots[0]];
    assert slots[..|slots| - 1] == [];
    assert Minted(slots, map[]) == [slots[0]];
    assert empty.keys + [slots[0]] == [slots[0]];
    assert DropKeys([slots[0]][1..], LegacyKeys) == [];
  }

  /**
   * The `[update_record]` integration case, for any two distinct tags: a
   * test whose history is empty has its single-tag bucket replaced by
   * another single tag; the history then has one slot, recording the old
   * bucket as last known and the new one as current.
   */
  lemma UpdateRecordScenario(oldBucket: string, newBucket: string, now: Timestamp, mint: seq<string>,
                             slots: seq<string>, result: MetaInfo)
    requires IsTag(oldBucket) && IsTag(newBucket) && oldBucket != newBucket
    requires KeyOracle(mint, MetaInfo([], map[]), 1)
    requires Reconciled(MetaInfo([], map[]), GetDifference(Text(oldBucket), Text(newBucket)), now, mint, slots, result)
    ensures |result.keys| == 1
    ensures result.keys[0] in result.entries
    ensures result.entries[result.keys[0]] == Entry(Some(oldBucket), Some(newBucket), Some(now))
  {
    OneTagReplaced(oldBucket, newBucket);
    OneRemovalOnEmptyHistory(Diff([oldBucket], [newBucket]), now, mint, slots, result);
  }

  /** A bucket whose only tag does not end in `_new]` seeds an empty history. */
  lemma NoNewTagNoSeed(a: string, now: Timestamp, mint: seq<string>, meta: MetaInfo)
    requires IsTag(a) && !EndsWith(a, NewTagSuffix)
    requires Seeded(a, now, mint, meta)
    ensures meta == MetaInfo([], map[])
  {
    OneTag(a);
    assert KeepEnding([a], NewTagSuffix) == [];
    assert meta.keys == [];
    assert meta.entries == map[];
  }

  /**
   * The buckets of the integration tests meet the conditions of the two
   * scenarios above: `[dt_chrome_regression]` is created without a
   * `_new]` tag (so `NoNewTagNoSeed` applies) and is then replaced by
   * `[dt_chrome_regression_tut]` (so `UpdateRecordScenario` applies).
   */
  lemma IntegrationBuckets()
    ensures IsTag(Chrome)
    ensures !EndsWith(Chrome, NewTagSuffix)
    ensures IsTag(ChromeTut)
    ensures Chrome != ChromeTut
  {
    assert |Chrome| == 22 && |ChromeTut| == 26;
    assert Chrome[17] == 's' && NewTagSuffix[0] == '_';
    assert Chrome[|Chrome| - |NewTagSuffix|..][0] != NewTagSuffix[0];
  }
}
