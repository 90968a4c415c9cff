/**
 * The counting in `pool:seed:roles`: the pool's scratch orgs partitioned by
 * exact status, the summary of those counts, and the per-tag histogram that
 * `logTagCount` builds before printing it.
 */
module PoolCounts {

  /** The fields of a pooled scratch org that the command reads. */
  datatype ScratchOrg = ScratchOrg(tag: string, orgId: string, username: string, status: string)

  const InUse: string := "In use"
  const Available: string := "Available"
  const Provisioning: string := "Provisioning in progress"

  function Statuses(orgs: seq<ScratchOrg>): (r: seq<string>)
    ensures |r| == |orgs|
  {
    seq(|orgs|, k requires 0 <= k < |orgs| => orgs[k].status)
  }

  function Tags(orgs: seq<ScratchOrg>): (r: seq<string>)
    ensures |r| == |orgs|
  {
    seq(|orgs|, k requires 0 <= k < |orgs| => orgs[k].tag)
  }

  /** `result.filter((element) => element.status === status)`. */
  function WithStatus(orgs: seq<ScratchOrg>, status: string): (r: seq<ScratchOrg>)
    ensures forall k :: 0 <= k < |r| ==> r[k].status == status
    ensures forall o :: multiset(r)[o] == if o.status == status then multiset(orgs)[o] else 0
    ensures |r| == multiset(Statuses(orgs))[status]
  {
    if orgs == [] then []
    else
      assert orgs == [orgs[0]] + orgs[1..];
      assert Statuses(orgs) == [orgs[0].status] + Statuses(orgs[1..]);
      (if orgs[0].status == status then [orgs[0]] else []) + WithStatus(orgs[1..], status)
  }

  /** The numbers of `execute`'s output object. */
  datatype Summary = Summary(total: nat, inuse: nat, unused: nat, inprovision: nat)

  /** The three exact-status counts and their sum. */
  function Summarise(orgs: seq<ScratchOrg>): (s: Summary)
    ensures s.inuse == multiset(Statuses(orgs))[InUse]
    ensures s.unused == multiset(Statuses(orgs))[Available]
    ensures s.inprovision == multiset(Statuses(orgs))[Provisioning]
    ensures s.total == s.inuse + s.unused + s.inprovision
    ensures s.total <= |orgs|
  {
    var inuse := |WithStatus(orgs, InUse)|;
    var unused := |WithStatus(orgs, Available)|;
    var inprovision := |WithStatus(orgs, Provisioning)|;
    ThreeCountsBounded(Statuses(orgs), InUse, Available, Provisioning);
    Summary(inuse + unused + inprovision, inuse, unused, inprovision)
  }

  /** Three different values occur at most as often, together, as the sequence is long. */
  lemma {:induction false} ThreeCountsBounded(s: seq<string>, x: string, y: string, z: string)
    requires x != y && y != z && x != z
    ensures multiset(s)[x] + multiset(s)[y] + multiset(s)[z] <= |s|
  {
    if s != [] {
      ThreeCountsBounded(s[1..], x, y, z);
      assert s == [s[0]] + s[1..];
    }
  }

  // ---------------------------------------------------------------------
  // `logTagCount`

  /** One row of the printed table. */
  datatype TagCount = TagCount(tag: string, count: nat)

  /** The counts of `keys` in the accumulator object, summed. */
  function SumOver(keys: seq<string>, counts: map<string, nat>): nat
    requires forall k :: 0 <= k < |keys| ==> keys[k] in counts
  {
    if keys == [] then 0 else SumOver(keys[..|keys| - 1], counts) + counts[keys[|keys| - 1]]
  }

  /** The counts of the table, summed. */
  function SumCounts(rows: seq<TagCount>): nat
  {
    if rows == [] then 0 else SumCounts(rows[..|rows| - 1]) + rows[|rows| - 1].count
  }

  predicate DistinctKeys(keys: seq<string>)
  {
    forall i, j :: 0 <= i < j < |keys| ==> keys[i] != keys[j]
  }

  function TagsOf(rows: seq<TagCount>): set<string>
  {
    set k | 0 <= k < |rows| :: rows[k].tag
  }

  /** Raising the count of one key, which occurs once in `keys`, raises the sum by one. */
  lemma {:induction false} SumOverBump(keys: seq<string>, counts: map<string, nat>, t: string)
    requires forall k :: 0 <= k < |keys| ==> keys[k] in counts
    requires DistinctKeys(keys)
    requires t in counts
    ensures forall k :: 0 <= k < |keys| ==> keys[k] in counts[t := counts[t] + 1]
    ensures SumOver(keys, counts[t := counts[t] + 1]) == SumOver(keys, counts) + if t in keys then 1 else 0
  {
    if keys != [] {
      var init := keys[..|keys| - 1];
      assert DistinctKeys(init);
      SumOverBump(init, counts, t);
      assert t in keys <==> t in init || t == keys[|keys| - 1];
      assert t == keys[|keys| - 1] ==> t !in init;
    }
  }

  /** A new key does not change the sum over the old keys. */
  lemma {:induction false} SumOverFresh(keys: seq<string>, counts: map<string, nat>, t: string, c: nat)
    requires forall k :: 0 <= k < |keys| ==> keys[k] in counts
    requires t !in keys
    ensures forall k :: 0 <= k < |keys| ==> keys[k] in counts[t := c]
    ensures SumOver(keys, counts[t := c]) == SumOver(keys, counts)
  {
    if keys != [] {
      var init := keys[..|keys| - 1];
      SumOverFresh(init, counts, t, c);
    }
  }

  /** How often each tag of `seen` occurs: what the accumulator object holds after `seen`. */
  ghost function CountsOf(seen: seq<string>): map<string, nat>
  {
    map t | t in multiset(seen) :: multiset(seen)[t]
  }

  /** `obj[v.tag] = (obj[v.tag] || 0) + 1` turns the counts of `seen` into those of `seen + [t]`. */
  lemma CountsOfAppend(seen: seq<string>, t: string)
    ensures CountsOf(seen + [t]) ==
      CountsOf(seen)[t := (if t in CountsOf(seen) then CountsOf(seen)[t] else 0) + 1]
  {
    var m := multiset(seen + [t]);
    assert m == multiset(seen) + multiset{t};
    assert CountsOf(seen + [t]).Keys == CountsOf(seen).Keys + {t};
  }

  /**
   * The accumulator after the tags `seen`: the counts of `seen`, and its keys
   * listed once each, in `keys`.
   */
  ghost predicate Tallied(seen: seq<string>, counts: map<string, nat>, keys: seq<string>)
  {
    && counts == CountsOf(seen)
    && (forall t :: t in keys <==> t in seen)
    && DistinctKeys(keys)
    && (forall k :: 0 <= k < |keys| ==> keys[k] in counts)
    && SumOver(keys, counts) == |seen|
  }

  /** The `reduce` callback on a tag already counted. */
  lemma TallySeen(seen: seq<string>, counts: map<string, nat>, keys: seq<string>, t: string)
    requires Tallied(seen, counts, keys)
    requires t in counts
    ensures Tallied(seen + [t], counts[t := counts[t] + 1], keys)
  {
    CountsOfAppend(seen, t);
    SumOverBump(keys, counts, t);
    assert forall u :: u in seen + [t] <==> u in seen || u == t;
  }

  /** The `reduce` callback on a new tag: in this model the new key is listed after the existing ones. */
  lemma TallyNew(seen: seq<string>, counts: map<string, nat>, keys: seq<string>, t: string)
    requires Tallied(seen, counts, keys)
    requires t !in counts
    ensures Tallied(seen + [t], counts[t := 1], keys + [t])
  {
    CountsOfAppend(seen, t);
    SumOverFresh(keys, counts, t, 1);
    var keys' := keys + [t];
    assert keys'[..|keys|] == keys;
    assert forall u :: u in seen + [t] <==> u in seen || u == t;
    assert forall u :: u in keys' <==> u in keys || u == t;
    assert t !in keys;
    assert DistinctKeys(keys');
  }

  /** The `reduce` of `logTagCount`: the accumulator object, with its keys in the order they were first added. */
  method CountTags(orgs: seq<ScratchOrg>) returns (tagCounts: map<string, nat>, keys: seq<string>)
    ensures Tallied(Tags(orgs), tagCounts, keys)
  {
    var tags := Tags(orgs);
    tagCounts := map[];
    keys := [];
    for i := 0 to |orgs|
      invariant Tallied(tags[..i], tagCounts, keys)
    {
      var t := orgs[i].tag;
      assert tags[..i + 1] == tags[..i] + [t];
      // `obj[v.tag] = (obj[v.tag] || 0) + 1`
      if t in tagCounts {
        TallySeen(tags[..i], tagCounts, keys, t);
        tagCounts := tagCounts[t := tagCounts[t] + 1];
      } else {
        TallyNew(tags[..i], tagCounts, keys, t);
        tagCounts := tagCounts[t := 1];
        keys := keys + [t];
      }
    }
    assert tags[..|orgs|] == tags;
  }

  /** The rows `forEach` pushes for `keys`, in key order. */
  function Rows(keys: seq<string>, counts: map<string, nat>): (rows: seq<TagCount>)
    requires forall k :: 0 <= k < |keys| ==> keys[k] in counts
    ensures |rows| == |keys|
    ensures forall k :: 0 <= k < |keys| ==> rows[k] == TagCount(keys[k], counts[keys[k]])
  {
    if keys == [] then [] else Rows(keys[..|keys| - 1], counts) + [TagCount(keys[|keys| - 1], counts[keys[|keys| - 1]])]
  }

  /** The table's counts add up to the accumulator's. */
  lemma {:induction false} SumCountsRows(keys: seq<string>, counts: map<string, nat>)
    requires forall k :: 0 <= k < |keys| ==> keys[k] in counts
    ensures SumCounts(Rows(keys, counts)) == SumOver(keys, counts)
  {
    if keys != [] {
      var rows := Rows(keys, counts);
      SumCountsRows(keys[..|keys| - 1], counts);
      assert rows[..|rows| - 1] == Rows(keys[..|keys| - 1], counts);
    }
  }

  /**
   * The table built from the accumulator after all the tags: one row per
   * distinct tag, carrying how often the tag occurs, the counts adding up to
   * the number of tags.
   */
  lemma RowsOfTally(seen: seq<string>, counts: map<string, nat>, keys: seq<string>)
    requires Tallied(seen, counts, keys)
    ensures forall k :: 0 <= k < |keys| ==>
      Rows(keys, counts)[k].count == multiset(seen)[Rows(keys, counts)[k].tag] && Rows(keys, counts)[k].count >= 1
    ensures forall t :: t in TagsOf(Rows(keys, counts)) <==> t in seen
    ensures forall i, j :: 0 <= i < j < |keys| ==> Rows(keys, counts)[i].tag != Rows(keys, counts)[j].tag
    ensures SumCounts(Rows(keys, counts)) == |seen|
  {
    var rows := Rows(keys, counts);
    SumCountsRows(keys, counts);
    forall t ensures t in TagsOf(rows) <==> t in keys {
      if t in keys {
        var j :| 0 <= j < |keys| && keys[j] == t;
        assert rows[j].tag == t;
      }
    }
  }

  /**
   * `logTagCount` without the table output: the counts per tag, then one
   * row per key of the accumulator, pushed in key order.
   */
  method LogTagCount(orgs: seq<ScratchOrg>) returns (tagArray: seq<TagCount>)
    ensures forall k :: 0 <= k < |tagArray| ==>
      tagArray[k].count == multiset(Tags(orgs))[tagArray[k].tag] && tagArray[k].count >= 1
    ensures forall t :: t in TagsOf(tagArray) <==> t in Tags(orgs)
    ensures forall i, j :: 0 <= i < j < |tagArray| ==> tagArray[i].tag != tagArray[j].tag
    ensures SumCounts(tagArray) == |orgs|
  {
    var tagCounts, keys := CountTags(orgs);
    tagArray := [];
    for k := 0 to |keys|
      invariant tagArray == Rows(keys[..k], tagCounts)
    {
      assert keys[..k + 1][..k] == keys[..k];
      tagArray := tagArray + [TagCount(keys[k], tagCounts[keys[k]])];
    }
    assert keys[..|keys|] == keys;
    RowsOfTally(Tags(orgs), tagCounts, keys);
  }
}
