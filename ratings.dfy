/** The rating summarizer: the star histogram over 5, 4, 3, 2, 1 with
    zero-filled counts and percentage shares, 0.0 throughout when no rating
    in that range occurs. */
module Ratings {
  import opened Reviews
  import Shares

  /** A row of `rating_summary`. */
  datatype Bucket = Bucket(rating: int, count: nat, percent: real)

  /** How many rows carry `star` as their rating. */
  function CountRating(rows: seq<Row>, star: int): (n: nat)
    ensures n <= |rows|
  {
    if |rows| == 0 then 0
    else (if rows[0].rating == star then 1 else 0) + CountRating(rows[1..], star)
  }

  /** How many rows carry a rating from 1 to 5. */
  function CountInRange(rows: seq<Row>): (n: nat)
    ensures n <= |rows|
  {
    if |rows| == 0 then 0
    else (if 1 <= rows[0].rating <= 5 then 1 else 0) + CountInRange(rows[1..])
  }

  /** The counts of the five buckets, in the order of `all_ratings`. */
  function Counts(rows: seq<Row>): seq<nat>
  {
    [CountRating(rows, 5), CountRating(rows, 4), CountRating(rows, 3),
     CountRating(rows, 2), CountRating(rows, 1)]
  }

  /** `rating_summary`: the five buckets after the left merge onto
      `all_ratings`, with `total_reviews` the sum of their counts. */
  function Summary(rows: seq<Row>): (s: seq<Bucket>)
    ensures |s| == 5
    ensures forall i :: 0 <= i < 5 ==> s[i].rating == 5 - i && s[i].count == CountRating(rows, 5 - i)
    ensures forall i :: 0 <= i < 5 ==>
              s[i].percent == if CountInRange(rows) > 0 then Shares.Share(s[i].count, CountInRange(rows)) else 0.0
  {
    CountsInRange(rows);
    var counts := Counts(rows);
    var total := Shares.Sum(counts);
    seq(5, i requires 0 <= i < 5 =>
      Bucket(5 - i, counts[i], if total > 0 then Shares.Share(counts[i], total) else 0.0))
  }

  lemma {:induction false} CountRatingZero(rows: seq<Row>, star: int)
    ensures CountRating(rows, star) == 0 <==> forall i :: 0 <= i < |rows| ==> rows[i].rating != star
    decreases |rows|
  {
    if |rows| > 0 {
      CountRatingZero(rows[1..], star);
      assert forall i :: 0 < i < |rows| ==> rows[i] == rows[1..][i - 1];
    }
  }

  /** Always five buckets, for the ratings 5, 4, 3, 2, 1 in that order; each
      holds the number of rows with its rating, and that number is 0 exactly
      when no row has it. */
  lemma SummaryShape(rows: seq<Row>)
    ensures |Summary(rows)| == 5
    ensures forall i :: 0 <= i < 5 ==> Summary(rows)[i].rating == 5 - i
    ensures forall i :: 0 <= i < 5 ==> Summary(rows)[i].count == CountRating(rows, 5 - i)
    ensures forall i :: 0 <= i < 5 ==>
              (Summary(rows)[i].count == 0 <==> forall j :: 0 <= j < |rows| ==> rows[j].rating != 5 - i)
  {
    forall i | 0 <= i < 5
      ensures Summary(rows)[i].count == CountRating(rows, 5 - i)
      ensures Summary(rows)[i].count == 0 <==> forall j :: 0 <= j < |rows| ==> rows[j].rating != 5 - i
    {
      CountRatingZero(rows, 5 - i);
    }
  }

  lemma SumOfCounts(rows: seq<Row>)
    ensures Shares.Sum(Counts(rows)) == CountRating(rows, 5) + CountRating(rows, 4)
              + CountRating(rows, 3) + CountRating(rows, 2) + CountRating(rows, 1)
  {
    var c := Counts(rows);
    assert Shares.Sum(c[4..]) == c[4] by { assert c[4..][1..] == []; }
    assert Shares.Sum(c[3..]) == c[3] + c[4] by { assert c[3..][1..] == c[4..]; }
    assert Shares.Sum(c[2..]) == c[2] + c[3] + c[4] by { assert c[2..][1..] == c[3..]; }
    assert Shares.Sum(c[1..]) == c[1] + c[2] + c[3] + c[4] by { assert c[1..][1..] == c[2..]; }
  }

  lemma {:induction false} CountsInRange(rows: seq<Row>)
    ensures Shares.Sum(Counts(rows)) == CountInRange(rows)
    decreases |rows|
  {
    SumOfCounts(rows);
    if |rows| > 0 {
      CountsInRange(rows[1..]);
      SumOfCounts(rows[1..]);
    }
  }

  function CountsOf(buckets: seq<Bucket>): seq<nat>
  {
    Shares.Column(buckets, (b: Bucket) => b.count)
  }

  function PercentsOf(buckets: seq<Bucket>): seq<real>
  {
    Shares.Column(buckets, (b: Bucket) => b.percent)
  }

  /** The counts add up to the number of rows rated 1 to 5 (so to all rows
      when every rating is in range). */
  lemma SummaryTotal(rows: seq<Row>)
    ensures Shares.Sum(CountsOf(Summary(rows))) == CountInRange(rows)
  {
    assert CountsOf(Summary(rows)) == Counts(rows);
    CountsInRange(rows);
  }

  /** With no row rated 1 to 5 every percent is 0.0; otherwise each percent
      is the bucket's share `cnt / total * 100` and the percents add up to
      100. */
  lemma SummaryPercents(rows: seq<Row>)
    ensures CountInRange(rows) == 0 ==> forall b :: b in Summary(rows) ==> b.percent == 0.0
    ensures CountInRange(rows) > 0 ==>
              && (forall b :: b in Summary(rows) ==> b.percent == Shares.Share(b.count, CountInRange(rows)))
              && Shares.SumReals(PercentsOf(Summary(rows))) == 100.0
  {
    var counts := Counts(rows);
    var total := Shares.Sum(counts);
    CountsInRange(rows);
    if total > 0 {
      assert PercentsOf(Summary(rows)) == Shares.Shares(counts, total);
      Shares.SharesSumTo100(counts);
    }
  }
}
