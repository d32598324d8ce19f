/** The sentiment breakdown: `label_sentiment` on each row's score and the
    `value_counts` histogram of the labels, with percentage shares. Unlike
    the rating summary it is sparse: only labels that occur are listed. */
module Sentiment {
  import opened Reviews
  import Shares

  datatype Label = Positive | Neutral | Negative

  /** `label_sentiment`: both thresholds are inclusive, the middle band is
      open. */
  function LabelSentiment(score: real): (l: Label)
    ensures l == Positive <==> score >= 0.3
    ensures l == Negative <==> score <= -0.3
    ensures l == Neutral <==> -0.3 < score < 0.3
  {
    if score >= 0.3 then Positive
    else if score <= -0.3 then Negative
    else Neutral
  }

  /** How many rows get label `l`. */
  function CountLabel(rows: seq<Row>, l: Label): (n: nat)
    ensures n <= |rows|
  {
    if |rows| == 0 then 0
    else (if LabelSentiment(rows[0].score) == l then 1 else 0) + CountLabel(rows[1..], l)
  }

  lemma {:induction false} CountLabelPositive(rows: seq<Row>, l: Label)
    ensures CountLabel(rows, l) > 0 <==> exists i :: 0 <= i < |rows| && LabelSentiment(rows[i].score) == l
    decreases |rows|
  {
    if |rows| > 0 {
      CountLabelPositive(rows[1..], l);
      assert forall i :: 0 < i < |rows| ==> rows[i] == rows[1..][i - 1];
    }
  }

  /** Every row gets exactly one label. */
  lemma {:induction false} CountLabelTotal(rows: seq<Row>)
    ensures CountLabel(rows, Positive) + CountLabel(rows, Neutral) + CountLabel(rows, Negative) == |rows|
    decreases |rows|
  {
    if |rows| > 0 {
      CountLabelTotal(rows[1..]);
    }
  }

  /** A histogram entry before its percent is attached. */
  datatype LabelCount = LabelCount(sentiment: Label, count: nat)

  /** A row of `sentiment_counts`. */
  datatype Slice = Slice(sentiment: Label, count: nat, percent: real)

  /** The entry of label `l`, when some row has it. */
  function Entry(rows: seq<Row>, l: Label): seq<LabelCount>
  {
    var n := CountLabel(rows, l);
    if n > 0 then [LabelCount(l, n)] else []
  }

  /** The labels that occur, with their counts. */
  function Occurring(rows: seq<Row>): (s: seq<LabelCount>)
    ensures |s| <= 3
    ensures forall x :: x in s ==> x.count == CountLabel(rows, x.sentiment) && x.count > 0
    ensures forall l :: CountLabel(rows, l) > 0 ==> LabelCount(l, CountLabel(rows, l)) in s
    ensures DistinctLabels(s)
  {
    Entry(rows, Positive) + Entry(rows, Neutral) + Entry(rows, Negative)
  }

  predicate NonIncreasing(s: seq<LabelCount>)
  {
    forall i, j :: 0 <= i < j < |s| ==> s[i].count >= s[j].count
  }

  predicate DistinctLabels(s: seq<LabelCount>)
  {
    forall i, j :: 0 <= i < j < |s| ==> s[i].sentiment != s[j].sentiment
  }

  function SumCounts(s: seq<LabelCount>): nat
  {
    if |s| == 0 then 0 else s[0].count + SumCounts(s[1..])
  }

  /** Places one entry before the first entry with a smaller count. */
  function InsertByCount(e: LabelCount, s: seq<LabelCount>): (r: seq<LabelCount>)
    requires NonIncreasing(s)
    ensures NonIncreasing(r)
    ensures |r| == |s| + 1
    ensures forall x :: x in r <==> x == e || x in s
  {
    if |s| == 0 then [e]
    else if e.count >= s[0].count then [e] + s
    else
      var rest := InsertByCount(e, s[1..]);
      assert forall x :: x in s[1..] ==> s[0].count >= x.count;
      assert forall x :: x in rest ==> s[0].count >= x.count;
      [s[0]] + rest
  }

  /** A label put in front of distinct labels it differs from keeps them distinct. */
  lemma DistinctCons(h: LabelCount, t: seq<LabelCount>)
    requires DistinctLabels(t) && forall x :: x in t ==> x.sentiment != h.sentiment
    ensures DistinctLabels([h] + t)
  {
    var s := [h] + t;
    forall i, j | 0 <= i < j < |s|
      ensures s[i].sentiment != s[j].sentiment
    {
      if i == 0 {
        assert s[j] == t[j - 1];
        assert t[j - 1] in t;
      } else {
        assert s[i] == t[i - 1] && s[j] == t[j - 1];
      }
    }
  }

  lemma {:induction false} InsertByCountKeeps(e: LabelCount, s: seq<LabelCount>)
    requires NonIncreasing(s)
    ensures SumCounts(InsertByCount(e, s)) == e.count + SumCounts(s)
    ensures DistinctLabels(s) && (forall x :: x in s ==> x.sentiment != e.sentiment) ==>
              DistinctLabels(InsertByCount(e, s))
    decreases |s|
  {
    var r := InsertByCount(e, s);
    if |s| == 0 {
    } else if e.count >= s[0].count {
      assert r[1..] == s;
      if DistinctLabels(s) && (forall x :: x in s ==> x.sentiment != e.sentiment) {
        DistinctCons(e, s);
      }
    } else {
      var rest := InsertByCount(e, s[1..]);
      InsertByCountKeeps(e, s[1..]);
      assert r == [s[0]] + rest;
      assert r[1..] == rest;
      if DistinctLabels(s) && (forall x :: x in s ==> x.sentiment != e.sentiment) {
        assert DistinctLabels(s[1..]);
        assert forall x :: x in s[1..] ==> x.sentiment != s[0].sentiment;
        assert forall x :: x in rest ==> x.sentiment != s[0].sentiment;
        DistinctCons(s[0], rest);
      }
    }
  }

  /** Insertion adds exactly the one entry: the result is a permutation of
      the entry followed by the list. */
  lemma {:induction false} InsertByCountPermutes(e: LabelCount, s: seq<LabelCount>)
    requires NonIncreasing(s)
    ensures multiset(InsertByCount(e, s)) == multiset(s) + multiset{e}
    decreases |s|
  {
    if |s| > 0 && e.count < s[0].count {
      InsertByCountPermutes(e, s[1..]);
      assert InsertByCount(e, s) == [s[0]] + InsertByCount(e, s[1..]);
      assert s == [s[0]] + s[1..];
    }
  }

  /** `value_counts` orders the entries by descending count; among equal
      counts the earlier entry stays first. */
  function SortByCount(s: seq<LabelCount>): (r: seq<LabelCount>)
    ensures NonIncreasing(r)
    ensures |r| == |s|
    ensures forall x :: x in r <==> x in s
  {
    if |s| == 0 then [] else InsertByCount(s[0], SortByCount(s[1..]))
  }

  /** Sorting by count neither loses nor duplicates an entry. */
  lemma {:induction false} SortByCountPermutes(s: seq<LabelCount>)
    ensures multiset(SortByCount(s)) == multiset(s)
    decreases |s|
  {
    if |s| > 0 {
      var t := SortByCount(s[1..]);
      SortByCountPermutes(s[1..]);
      InsertByCountPermutes(s[0], t);
      assert SortByCount(s) == InsertByCount(s[0], t);
      assert s == [s[0]] + s[1..];
      assert multiset(s) == multiset(s[1..]) + multiset{s[0]};
    }
  }

  lemma {:induction false} SortByCountKeeps(s: seq<LabelCount>)
    ensures SumCounts(SortByCount(s)) == SumCounts(s)
    ensures DistinctLabels(s) ==> DistinctLabels(SortByCount(s))
    decreases |s|
  {
    if |s| > 0 {
      SortByCountKeeps(s[1..]);
      InsertByCountKeeps(s[0], SortByCount(s[1..]));
      if DistinctLabels(s) {
        assert DistinctLabels(s[1..]);
        assert forall x :: x in s[1..] ==> x.sentiment != s[0].sentiment;
      }
    }
  }

  /** The value counts of the rows' sentiment labels. */
  function ValueCounts(rows: seq<Row>): seq<LabelCount>
  {
    SortByCount(Occurring(rows))
  }

  lemma {:induction false} SumCountsPositive(s: seq<LabelCount>)
    requires |s| > 0 && forall x :: x in s ==> x.count > 0
    ensures SumCounts(s) > 0
  {
    assert s[0] in s;
  }

  function CountsOf(s: seq<LabelCount>): (c: seq<nat>)
    ensures |c| == |s|
    ensures forall i :: 0 <= i < |s| ==> c[i] == s[i].count
    ensures Shares.Sum(c) == SumCounts(s)
  {
    if |s| == 0 then [] else [s[0].count] + CountsOf(s[1..])
  }

  /** `sentiment_counts` with its percent column: each count's share of the
      sum of the counts. */
  function Breakdown(rows: seq<Row>): (b: seq<Slice>)
    ensures |b| == |ValueCounts(rows)|
    ensures forall i :: 0 <= i < |b| ==>
              b[i].sentiment == ValueCounts(rows)[i].sentiment && b[i].count == ValueCounts(rows)[i].count
  {
    var vc := ValueCounts(rows);
    if |vc| == 0 then []
    else
      SumCountsPositive(vc);
      var total := SumCounts(vc);
      seq(|vc|, i requires 0 <= i < |vc| => Slice(vc[i].sentiment, vc[i].count, Shares.Share(vc[i].count, total)))
  }

  function LabelsOf(b: seq<Slice>): (ls: seq<Label>)
    ensures |ls| == |b|
    ensures forall i :: 0 <= i < |b| ==> ls[i] == b[i].sentiment
  {
    if |b| == 0 then [] else [b[0].sentiment] + LabelsOf(b[1..])
  }

  function SliceCounts(b: seq<Slice>): seq<nat>
  {
    Shares.Column(b, (x: Slice) => x.count)
  }

  function SlicePercents(b: seq<Slice>): seq<real>
  {
    Shares.Column(b, (x: Slice) => x.percent)
  }

  lemma {:induction false} SumCountsAppend(a: seq<LabelCount>, b: seq<LabelCount>)
    ensures SumCounts(a + b) == SumCounts(a) + SumCounts(b)
    decreases |a|
  {
    if |a| == 0 {
      assert a + b == b;
    } else {
      assert (a + b)[1..] == a[1..] + b;
      SumCountsAppend(a[1..], b);
    }
  }

  lemma OccurringTotal(rows: seq<Row>)
    ensures SumCounts(Occurring(rows)) == |rows|
  {
    CountLabelTotal(rows);
    var p, u, n := Entry(rows, Positive), Entry(rows, Neutral), Entry(rows, Negative);
    SumCountsAppend(p, u);
    SumCountsAppend(p + u, n);
  }

  /** The breakdown lists entries by descending count, no label twice (so
      at most three entries), each count the number of rows with that label. */
  lemma BreakdownEntries(rows: seq<Row>)
    ensures |Breakdown(rows)| <= 3
    ensures forall i, j :: 0 <= i < j < |Breakdown(rows)| ==>
              Breakdown(rows)[i].sentiment != Breakdown(rows)[j].sentiment
              && Breakdown(rows)[i].count >= Breakdown(rows)[j].count
    ensures forall s :: s in Breakdown(rows) ==> s.count == CountLabel(rows, s.sentiment) && s.count >= 1
  {
    var o := Occurring(rows);
    var vc := ValueCounts(rows);
    var b := Breakdown(rows);
    SortByCountKeeps(o);
    forall s | s in b
      ensures s.count == CountLabel(rows, s.sentiment) && s.count >= 1
    {
      var i :| 0 <= i < |b| && b[i] == s;
      assert vc[i] in vc;
    }
  }

  /** A label with rows is listed. */
  lemma BreakdownListsCounted(rows: seq<Row>, l: Label)
    requires CountLabel(rows, l) > 0
    ensures l in LabelsOf(Breakdown(rows))
  {
    var o := Occurring(rows);
    var vc := SortByCount(o);
    var e := LabelCount(l, CountLabel(rows, l));
    assert e in o;
    assert e in vc;
    var j :| 0 <= j < |vc| && vc[j] == e;
    assert LabelsOf(Breakdown(rows))[j] == l;
  }

  /** A listed label has rows. */
  lemma BreakdownListsOnlyCounted(rows: seq<Row>, l: Label)
    ensures l in LabelsOf(Breakdown(rows)) ==> CountLabel(rows, l) > 0
  {
    var o := Occurring(rows);
    var vc := SortByCount(o);
    var ls := LabelsOf(Breakdown(rows));
    if l in ls {
      var j :| 0 <= j < |ls| && ls[j] == l;
      assert vc[j] in vc;
      assert vc[j] in o;
    }
  }

  /** A label is listed exactly when some row has it. */
  lemma BreakdownLabels(rows: seq<Row>)
    ensures forall l :: l in LabelsOf(Breakdown(rows)) <==>
              exists i :: 0 <= i < |rows| && LabelSentiment(rows[i].score) == l
  {
    forall l
      ensures l in LabelsOf(Breakdown(rows)) <==>
              exists i :: 0 <= i < |rows| && LabelSentiment(rows[i].score) == l
    {
      CountLabelPositive(rows, l);
      if CountLabel(rows, l) > 0 {
        BreakdownListsCounted(rows, l);
      }
      BreakdownListsOnlyCounted(rows, l);
    }
  }

  /** With no row the breakdown is empty; otherwise each percent is the
      slice's share of all rows, `count / count.sum() * 100` with the sum
      being the number of rows. */
  lemma BreakdownPercents(rows: seq<Row>)
    ensures |rows| == 0 ==> Breakdown(rows) == []
    ensures |rows| > 0 ==>
              forall s :: s in Breakdown(rows) ==> s.percent == Shares.Share(s.count, |rows|)
  {
    OccurringTotal(rows);
    SortByCountKeeps(Occurring(rows));
  }

  /** The counts add up to the number of rows, and when there is any row the
      percents add up to 100. */
  lemma BreakdownTotals(rows: seq<Row>)
    ensures Shares.Sum(SliceCounts(Breakdown(rows))) == |rows|
    ensures |rows| > 0 ==> Shares.SumReals(SlicePercents(Breakdown(rows))) == 100.0
  {
    var o := Occurring(rows);
    var vc := ValueCounts(rows);
    var b := Breakdown(rows);
    OccurringTotal(rows);
    SortByCountKeeps(o);
    assert SliceCounts(b) == CountsOf(vc);
    if |rows| > 0 {
      var total := SumCounts(vc);
      assert SlicePercents(b) == Shares.Shares(CountsOf(vc), total);
      Shares.SharesSumTo100(CountsOf(vc));
    }
  }
}
