/** The drill-down: for the topic chosen in the select box, show one review
    of that topic, or say that there is none. */
module DrillDown {
  import opened Wrappers
  import opened Reviews
  import Topics

  /** What the drill-down panel shows. */
  datatype Panel = NothingSelected | NoReviews | Sample(topic: string, review: string)

  /** The review texts of the rows labelled `category`, in input order. */
  function ReviewsOf(rows: seq<Row>, category: string): (texts: seq<string>)
    ensures |texts| <= |rows|
  {
    if |rows| == 0 then []
    else (if rows[0].topic == category then [rows[0].review] else []) + ReviewsOf(rows[1..], category)
  }

  lemma {:induction false} ReviewsOfSpec(rows: seq<Row>, category: string)
    ensures forall t :: t in ReviewsOf(rows, category) <==>
              exists i :: 0 <= i < |rows| && rows[i].topic == category && rows[i].review == t
    decreases |rows|
  {
    if |rows| > 0 {
      ReviewsOfSpec(rows[1..], category);
      assert forall i :: 0 < i < |rows| ==> rows[i] == rows[1..][i - 1];
      forall t | exists i :: 0 <= i < |rows| && rows[i].topic == category && rows[i].review == t
        ensures t in ReviewsOf(rows, category)
      {
        var i :| 0 <= i < |rows| && rows[i].topic == category && rows[i].review == t;
        if i > 0 {
          assert rows[1..][i - 1] == rows[i];
        }
      }
    }
  }

  /** The panel for a selection. A missing or empty selection is falsy and
      shows nothing; `choice` stands for the random pick of `sample(1)`. */
  function Show(rows: seq<Row>, selected: Option<string>, choice: nat): (p: Panel)
    ensures p.Sample? ==> selected == Some(p.topic) && p.topic != "" && p.review in ReviewsOf(rows, p.topic)
  {
    match selected
    case None => NothingSelected
    case Some(category) =>
      if category == "" then NothingSelected
      else
        var texts := ReviewsOf(rows, category);
        if |texts| == 0 then NoReviews else Sample(category, texts[choice % |texts|])
  }

  /** A review is shown only from the rows of the selected topic, and every
      such review can be the one shown; absence is reported exactly when the
      topic has no row. */
  lemma ShowSpec(rows: seq<Row>, selected: Option<string>, choice: nat)
    ensures Show(rows, selected, choice) == NothingSelected <==> selected == None || selected.value == ""
    ensures Show(rows, selected, choice) == NoReviews <==>
              selected.Some? && selected.value != ""
              && forall i :: 0 <= i < |rows| ==> rows[i].topic != selected.value
    ensures Show(rows, selected, choice).Sample? ==>
              && Show(rows, selected, choice).topic == selected.value
              && exists i :: && 0 <= i < |rows| && rows[i].topic == selected.value
                             && rows[i].review == Show(rows, selected, choice).review
  {
    if selected.Some? && selected.value != "" {
      var category := selected.value;
      var texts := ReviewsOf(rows, category);
      ReviewsOfSpec(rows, category);
      if exists i :: 0 <= i < |rows| && rows[i].topic == category {
        var i :| 0 <= i < |rows| && rows[i].topic == category;
        assert rows[i].review in texts;
      }
      if |texts| > 0 {
        assert texts[choice % |texts|] in texts;
        assert texts[0] in texts;
      }
    }
  }

  /** Where the review of row `i` sits among the reviews of its topic. */
  lemma {:induction false} ReviewPosition(rows: seq<Row>, category: string, i: nat) returns (k: nat)
    requires i < |rows| && rows[i].topic == category
    ensures k < |ReviewsOf(rows, category)| && ReviewsOf(rows, category)[k] == rows[i].review
    decreases |rows|
  {
    var head := if rows[0].topic == category then [rows[0].review] else [];
    assert ReviewsOf(rows, category) == head + ReviewsOf(rows[1..], category);
    if i == 0 {
      k := 0;
    } else {
      var k' := ReviewPosition(rows[1..], category, i - 1);
      k := |head| + k';
    }
  }

  /** Every review of the selected topic is shown for some pick. */
  lemma ShowReaches(rows: seq<Row>, category: string, i: nat)
    requires category != "" && i < |rows| && rows[i].topic == category
    ensures exists choice: nat :: Show(rows, Some(category), choice) == Sample(category, rows[i].review)
  {
    var texts := ReviewsOf(rows, category);
    var k := ReviewPosition(rows, category, i);
    assert k % |texts| == k;
    assert Show(rows, Some(category), k) == Sample(category, rows[i].review);
  }

  /** The select box offers the topics of `agg`, so a selected topic always
      has a review to show. */
  lemma SelectedTopicHasReviews(rows: seq<Row>, choice: nat, j: nat)
    requires j < |Topics.Aggregate(rows)| && Topics.Aggregate(rows)[j].topic != ""
    ensures Show(rows, Some(Topics.Aggregate(rows)[j].topic), choice).Sample?
  {
    var agg := Topics.Aggregate(rows);
    Topics.AggregateGroups(rows);
    assert Topics.TopicNames(agg)[j] == agg[j].topic;
    ShowSpec(rows, Some(agg[j].topic), choice);
  }
}
