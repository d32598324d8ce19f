/** The topic aggregator: `groupby` on the topic label with the mean of
    satisfaction and significance, the row count as volume and the `first`
    action of each group. pandas emits the groups in ascending order of their
    keys. */
module Topics {
  import opened Reviews
  import Strings

  /** One aggregated topic, a row of `agg`. */
  datatype TopicAgg = TopicAgg(topic: string, satisfaction: real, significance: real,
                               volume: nat, action: Action)

  predicate StrictlySorted(keys: seq<string>)
  {
    forall i, j :: 0 <= i < j < |keys| ==> Strings.Less(keys[i], keys[j])
  }

  predicate Distinct(keys: seq<string>)
  {
    forall i, j :: 0 <= i < j < |keys| ==> keys[i] != keys[j]
  }

  lemma SortedDistinct(keys: seq<string>)
    requires StrictlySorted(keys)
    ensures Distinct(keys)
  {
    forall i, j | 0 <= i < j < |keys|
      ensures keys[i] != keys[j]
    {
      Strings.LessIrreflexive(keys[i]);
    }
  }

  lemma LessThanSorted(k: string, keys: seq<string>)
    requires StrictlySorted(keys) && |keys| > 0 && Strings.Less(k, keys[0])
    ensures forall x :: x in keys ==> Strings.Less(k, x)
  {
    forall x | x in keys
      ensures Strings.Less(k, x)
    {
      if x != keys[0] {
        Strings.LessTransitive(k, keys[0], x);
      }
    }
  }

  /** Adds one key to a sorted list of distinct keys. */
  function Insert(keys: seq<string>, k: string): (r: seq<string>)
    requires StrictlySorted(keys)
    ensures StrictlySorted(r)
    ensures forall x :: x in r <==> x in keys || x == k
  {
    if |keys| == 0 then [k]
    else if k == keys[0] then keys
    else if Strings.Less(k, keys[0]) then
      LessThanSorted(k, keys);
      [k] + keys
    else
      Strings.LessTotal(k, keys[0]);
      var rest := Insert(keys[1..], k);
      assert forall x :: x in rest ==> Strings.Less(keys[0], x);
      [keys[0]] + rest
  }

  /** Some row carries the label `k`. */
  predicate Present(rows: seq<Row>, k: string)
  {
    exists i :: 0 <= i < |rows| && rows[i].topic == k
  }

  /** The keys of the groups: every label present, once, in ascending order. */
  function Keys(rows: seq<Row>): (keys: seq<string>)
    ensures StrictlySorted(keys)
    ensures forall k :: k in keys <==> Present(rows, k)
    ensures forall j :: 0 <= j < |keys| ==> Present(rows, keys[j])
  {
    if |rows| == 0 then []
    else
      var keys := Insert(Keys(rows[1..]), rows[0].topic);
      assert forall i :: 0 < i < |rows| ==> rows[i] == rows[1..][i - 1];
      keys
  }

  /** The rows of one group, in input order. */
  function Members(rows: seq<Row>, k: string): (m: seq<Row>)
    ensures |m| <= |rows|
    ensures forall row :: row in m ==> row in rows && row.topic == k
  {
    if |rows| == 0 then []
    else (if rows[0].topic == k then [rows[0]] else []) + Members(rows[1..], k)
  }

  /** The position of the first row carrying `k`, which heads its group. */
  lemma {:induction false} FirstIndex(rows: seq<Row>, k: string) returns (i: nat)
    requires Present(rows, k)
    ensures i < |rows| && rows[i].topic == k
    ensures forall j :: 0 <= j < i ==> rows[j].topic != k
    ensures |Members(rows, k)| > 0 && Members(rows, k)[0] == rows[i]
    decreases |rows|
  {
    var t := rows[1..];
    if rows[0].topic == k {
      assert Members(rows, k) == [rows[0]] + Members(t, k);
      i := 0;
    } else {
      var n :| 0 <= n < |rows| && rows[n].topic == k;
      assert t[n - 1].topic == k;
      var i' := FirstIndex(t, k);
      assert Members(rows, k) == Members(t, k);
      i := i' + 1;
      assert rows[i] == t[i'];
      forall j | 0 <= j < i
        ensures rows[j].topic != k
      {
        if j > 0 {
          assert rows[j] == t[j - 1];
        }
      }
    }
  }

  /** A label that occurs has a group, and the group's first member is the
      first row in input order that carries the label. */
  lemma FirstMember(rows: seq<Row>, k: string)
    requires Present(rows, k)
    ensures |Members(rows, k)| > 0
    ensures exists i :: && 0 <= i < |rows| && rows[i].topic == k
                        && Members(rows, k)[0] == rows[i]
                        && forall j :: 0 <= j < i ==> rows[j].topic != k
  {
    var i := FirstIndex(rows, k);
  }

  function SumSatisfaction(rows: seq<Row>): real
  {
    if |rows| == 0 then 0.0 else rows[0].satisfaction + SumSatisfaction(rows[1..])
  }

  function SumSignificance(rows: seq<Row>): real
  {
    if |rows| == 0 then 0.0 else rows[0].significance + SumSignificance(rows[1..])
  }

  /** Sums of n prepared rows lie in [-n, n] and [0, n]. */
  lemma {:induction false} SumBounds(rows: seq<Row>)
    requires AllDerived(rows)
    ensures -(|rows| as real) <= SumSatisfaction(rows) <= |rows| as real
    ensures 0.0 <= SumSignificance(rows) <= |rows| as real
    decreases |rows|
  {
    if |rows| > 0 {
      assert forall row :: row in rows[1..] ==> row in rows;
      SumBounds(rows[1..]);
      assert Derived(rows[0]);
    }
  }

  /** A sum within [-n, n] has its mean within [-1, 1]; one within [0, n]
      has its mean within [0, 1]. */
  lemma MeanBounds(sum: real, n: real)
    requires n > 0.0 && -n <= sum <= n
    ensures -1.0 <= sum / n <= 1.0
    ensures 0.0 <= sum ==> 0.0 <= sum / n
  {
    assert sum / n * n == sum;
  }

  /** The aggregate of one group. */
  function Summarize(rows: seq<Row>, k: string): (a: TopicAgg)
    requires Present(rows, k)
    ensures a.topic == k && a.volume == |Members(rows, k)| && a.volume >= 1
  {
    FirstMember(rows, k);
    var m := Members(rows, k);
    TopicAgg(k, SumSatisfaction(m) / (|m| as real), SumSignificance(m) / (|m| as real), |m|, m[0].action)
  }

  /** `agg`: one aggregate per label present, in ascending label order. */
  function Aggregate(rows: seq<Row>): (agg: seq<TopicAgg>)
    ensures |agg| == |Keys(rows)|
    ensures forall j :: 0 <= j < |agg| ==> agg[j] == Summarize(rows, Keys(rows)[j])
  {
    var keys := Keys(rows);
    seq(|keys|, j requires 0 <= j < |keys| => Summarize(rows, keys[j]))
  }

  function TopicNames(agg: seq<TopicAgg>): (names: seq<string>)
    ensures |names| == |agg|
    ensures forall j :: 0 <= j < |agg| ==> names[j] == agg[j].topic
  {
    if |agg| == 0 then [] else [agg[0].topic] + TopicNames(agg[1..])
  }

  /** The groups: one per distinct label present and none other, in
      ascending label order (so no label twice), each with at least one
      member and as many as the label has rows. */
  lemma AggregateGroups(rows: seq<Row>)
    ensures StrictlySorted(TopicNames(Aggregate(rows)))
    ensures Distinct(TopicNames(Aggregate(rows)))
    ensures forall k :: k in TopicNames(Aggregate(rows)) <==> Present(rows, k)
    ensures forall j :: 0 <= j < |Aggregate(rows)| ==>
              Aggregate(rows)[j].volume >= 1
              && Aggregate(rows)[j].volume == |Members(rows, Aggregate(rows)[j].topic)|
  {
    var agg, keys := Aggregate(rows), Keys(rows);
    assert TopicNames(agg) == keys;
    SortedDistinct(keys);
  }

  /** A group's mean satisfaction lies in [-1, 1] and its mean significance
      in [0, 1]. */
  lemma SummarizeMeans(rows: seq<Row>, k: string)
    requires AllDerived(rows) && Present(rows, k)
    ensures -1.0 <= Summarize(rows, k).satisfaction <= 1.0
    ensures 0.0 <= Summarize(rows, k).significance <= 1.0
  {
    var m := Members(rows, k);
    assert |m| == Summarize(rows, k).volume >= 1;
    var n := |m| as real;
    assert AllDerived(m);
    SumBounds(m);
    var sat, sig := SumSatisfaction(m), SumSignificance(m);
    MeanBounds(sat, n);
    MeanBounds(sig, n);
    assert Summarize(rows, k).satisfaction == sat / n;
    assert Summarize(rows, k).significance == sig / n;
  }

  /** Every group of prepared rows has its means in range. */
  lemma AggregateMeans(rows: seq<Row>)
    requires AllDerived(rows)
    ensures forall a :: a in Aggregate(rows) ==>
              -1.0 <= a.satisfaction <= 1.0 && 0.0 <= a.significance <= 1.0
  {
    var agg, keys := Aggregate(rows), Keys(rows);
    forall a | a in agg
      ensures -1.0 <= a.satisfaction <= 1.0 && 0.0 <= a.significance <= 1.0
    {
      var j :| 0 <= j < |agg| && agg[j] == a;
      SummarizeMeans(rows, keys[j]);
    }
  }

  /** `'first'`: a group's action is the action of the first row, in input
      order, that carries its label. */
  lemma AggregateFirstAction(rows: seq<Row>)
    ensures forall j :: 0 <= j < |Aggregate(rows)| ==>
              exists i :: && 0 <= i < |rows| && rows[i].topic == Aggregate(rows)[j].topic
                          && Aggregate(rows)[j].action == rows[i].action
                          && forall i' :: 0 <= i' < i ==> rows[i'].topic != Aggregate(rows)[j].topic
  {
    var agg, keys := Aggregate(rows), Keys(rows);
    forall j | 0 <= j < |agg|
      ensures exists i :: && 0 <= i < |rows| && rows[i].topic == agg[j].topic
                          && agg[j].action == rows[i].action
                          && forall i' :: 0 <= i' < i ==> rows[i'].topic != agg[j].topic
    {
      assert keys[j] in keys;
      FirstMember(rows, keys[j]);
    }
  }

  function SumVolumes(agg: seq<TopicAgg>): nat
  {
    if |agg| == 0 then 0 else agg[0].volume + SumVolumes(agg[1..])
  }

  /** The total size of the groups of some keys. */
  function GroupSizes(rows: seq<Row>, keys: seq<string>): nat
  {
    if |keys| == 0 then 0 else |Members(rows, keys[0])| + GroupSizes(rows, keys[1..])
  }

  /** How many times `k` occurs among `keys`. */
  function Occurrences(keys: seq<string>, k: string): nat
  {
    if |keys| == 0 then 0 else (if keys[0] == k then 1 else 0) + Occurrences(keys[1..], k)
  }

  lemma {:induction false} OccurrencesDistinct(keys: seq<string>, k: string)
    requires Distinct(keys)
    ensures Occurrences(keys, k) == if k in keys then 1 else 0
    decreases |keys|
  {
    if |keys| > 0 {
      assert Distinct(keys[1..]);
      OccurrencesDistinct(keys[1..], k);
      assert keys[0] == k ==> k !in keys[1..];
      assert k in keys <==> keys[0] == k || k in keys[1..];
    }
  }

  /** Taking off the first row shrinks exactly the groups of its label. */
  lemma {:induction false} GroupSizesStep(rows: seq<Row>, keys: seq<string>)
    ensures GroupSizes(rows, keys) ==
              if |rows| == 0 then 0 else GroupSizes(rows[1..], keys) + Occurrences(keys, rows[0].topic)
    decreases |keys|
  {
    if |keys| > 0 {
      GroupSizesStep(rows, keys[1..]);
    }
  }

  lemma {:induction false} GroupSizesCover(rows: seq<Row>, keys: seq<string>)
    requires Distinct(keys)
    requires forall i :: 0 <= i < |rows| ==> rows[i].topic in keys
    ensures GroupSizes(rows, keys) == |rows|
    decreases |rows|
  {
    GroupSizesStep(rows, keys);
    if |rows| > 0 {
      assert rows[0].topic in keys;
      OccurrencesDistinct(keys, rows[0].topic);
      assert forall i :: 0 <= i < |rows| - 1 ==> rows[1..][i] == rows[i + 1];
      GroupSizesCover(rows[1..], keys);
    }
  }

  lemma {:induction false} SumVolumesOfGroups(rows: seq<Row>, keys: seq<string>, agg: seq<TopicAgg>)
    requires |agg| == |keys|
    requires forall j :: 0 <= j < |agg| ==> agg[j].volume == |Members(rows, keys[j])|
    ensures SumVolumes(agg) == GroupSizes(rows, keys)
    decreases |agg|
  {
    if |agg| > 0 {
      SumVolumesOfGroups(rows, keys[1..], agg[1..]);
    }
  }

  /** The volumes of all groups add up to the number of rows. */
  lemma AggregateVolumes(rows: seq<Row>)
    ensures SumVolumes(Aggregate(rows)) == |rows|
  {
    var keys := Keys(rows);
    SortedDistinct(keys);
    SumVolumesOfGroups(rows, keys, Aggregate(rows));
    forall i | 0 <= i < |rows|
      ensures rows[i].topic in keys
    {
    }
    GroupSizesCover(rows, keys);
  }
}
