/** The record normalizer and the row classifier: which loaded reviews the
    dashboard keeps, the columns it derives for each (satisfaction,
    significance, volume) and the action tag `assign_action` gives a row. */
module Reviews {
  import opened Wrappers

  /** One record as the warehouse query returns it. The rating, the review
      text, the sentiment score and the topic label may each be missing; the
      score and the label come from a managed AI service and are taken as
      given. */
  datatype Raw = Raw(username: string, rating: Option<int>, review: Option<string>,
                     score: Option<real>, topic: Option<string>)

  /** The four quadrant tags. */
  datatype Action = AddressImmediately | MaintainAndMonitor | MinimizeAndReassess | Explore

  /** A row of the prepared frame: a kept record with its derived columns. */
  datatype Row = Row(username: string, rating: int, review: string, score: real, topic: string,
                     satisfaction: real, significance: real, volume: nat, action: Action)

  function Abs(x: real): (r: real)
    ensures r >= 0.0 && (r == x || r == -x)
  {
    if x < 0.0 then -x else x
  }

  /** `assign_action`: the first rule that matches decides. Each tag is
      characterised by the region of the plane it covers; together the four
      regions cover every pair, so exactly one tag applies. */
  function AssignAction(satisfaction: real, significance: real): (a: Action)
    ensures a == AddressImmediately <==> satisfaction < 0.0 && significance >= 0.5
    ensures a == MaintainAndMonitor <==> satisfaction > 0.0 && significance >= 0.5
    ensures a == MinimizeAndReassess <==> satisfaction < 0.0 && significance < 0.5
    ensures a == Explore <==> satisfaction == 0.0 || (satisfaction > 0.0 && significance < 0.5)
  {
    if satisfaction < 0.0 && significance >= 0.5 then AddressImmediately
    else if satisfaction > 0.0 && significance >= 0.5 then MaintainAndMonitor
    else if significance < 0.5 && satisfaction < 0.0 then MinimizeAndReassess
    else Explore
  }

  /** The action of a review, read off its sentiment score alone: a score of
      magnitude at least 0.5 is significant (so exactly -0.5 and 0.5 are), a
      score of 0 is explored, and a mildly positive score is explored too. */
  function ScoreAction(score: real): (a: Action)
    ensures a == (if score <= -0.5 then AddressImmediately
                  else if score >= 0.5 then MaintainAndMonitor
                  else if score < 0.0 then MinimizeAndReassess
                  else Explore)
  {
    AssignAction(score, Abs(score))
  }

  /** The record filter: the query keeps records with a rating, a review and
      a score; the frame is then cut to those with a topic label and a score
      in [-1, 1] (`between` is inclusive on both ends). */
  predicate Keep(r: Raw)
  {
    && r.rating.Some?
    && r.review.Some?
    && r.score.Some?
    && r.topic.Some?
    && -1.0 <= r.score.value <= 1.0
  }

  /** The columns set before the actions are assigned: the score in
      [-1, 1], satisfaction the score, significance its magnitude, volume 1. */
  predicate Scored(row: Row)
  {
    && -1.0 <= row.score <= 1.0
    && row.satisfaction == row.score
    && row.significance == Abs(row.score)
    && row.volume == 1
  }

  /** A prepared row: scored, with the action `assign_action` gives. */
  predicate Derived(row: Row)
  {
    Scored(row) && row.action == AssignAction(row.satisfaction, row.significance)
  }

  /** Assigning the action column: `assign_action` is applied row by row and
      its result stored in each row of the frame in place. The other columns
      stay as they were, so a frame of scored rows becomes a frame of
      prepared rows. */
  method ApplyAssignAction(frame: array<Row>)
    modifies frame
    ensures forall i :: 0 <= i < frame.Length ==>
              frame[i] == old(frame[i]).(action := AssignAction(old(frame[i]).satisfaction, old(frame[i]).significance))
    ensures (forall i :: 0 <= i < frame.Length ==> Scored(old(frame[i]))) ==>
              forall i :: 0 <= i < frame.Length ==> Derived(frame[i])
  {
    var i := 0;
    while i < frame.Length
      invariant 0 <= i <= frame.Length
      invariant forall k :: 0 <= k < i ==>
                  frame[k] == old(frame[k]).(action := AssignAction(old(frame[k]).satisfaction, old(frame[k]).significance))
      invariant forall k :: i <= k < frame.Length ==> frame[k] == old(frame[k])
    {
      var row := frame[i];
      frame[i] := row.(action := AssignAction(row.satisfaction, row.significance));
      i := i + 1;
    }
  }

  /** The loaded record a row was made from. */
  function Source(row: Row): Raw
  {
    Raw(row.username, Some(row.rating), Some(row.review), Some(row.score), Some(row.topic))
  }

  /** The derived columns of one kept record. No field of the record is
      altered: the record can be read back from the row. */
  function Derive(r: Raw): (row: Row)
    requires Keep(r)
    ensures Derived(row)
    ensures Source(row) == r
    ensures 0.0 <= row.significance <= 1.0
  {
    var s := r.score.value;
    Row(r.username, r.rating.value, r.review.value, s, r.topic.value, s, Abs(s), 1, AssignAction(s, Abs(s)))
  }

  /** A derived row and the record it came from determine each other. */
  lemma DeriveSource(row: Row)
    requires Derived(row)
    ensures Keep(Source(row)) && Derive(Source(row)) == row
  {
  }

  /** The prepared frame: the kept records, in input order, with their
      derived columns. */
  function Normalize(raws: seq<Raw>): (rows: seq<Row>)
    ensures |rows| <= |raws|
    ensures forall row :: row in rows ==> Derived(row)
  {
    if |raws| == 0 then []
    else (if Keep(raws[0]) then [Derive(raws[0])] else []) + Normalize(raws[1..])
  }

  predicate AllDerived(rows: seq<Row>)
  {
    forall row :: row in rows ==> Derived(row)
  }

  /** Filtering works record by record: the frame of two batches is the
      frames of each, in order. With the one-record case this pins down the
      order of the rows. */
  lemma {:induction false} NormalizeAppend(a: seq<Raw>, b: seq<Raw>)
    ensures Normalize(a + b) == Normalize(a) + Normalize(b)
    decreases |a|
  {
    if |a| == 0 {
      assert a + b == b;
    } else {
      var head := if Keep(a[0]) then [Derive(a[0])] else [];
      assert (a + b)[0] == a[0];
      assert (a + b)[1..] == a[1..] + b;
      assert Normalize(a + b) == head + Normalize(a[1..] + b);
      NormalizeAppend(a[1..], b);
      assert Normalize(a) == head + Normalize(a[1..]);
    }
  }

  lemma NormalizeOne(r: Raw)
    ensures Normalize([r]) == if Keep(r) then [Derive(r)] else []
  {
    assert [r][1..] == [];
  }

  /** A record survives exactly when it passes the filter: every kept record
      has its row, and every row comes from a kept record of the input. */
  lemma {:induction false} NormalizeKeeps(raws: seq<Raw>)
    ensures forall r :: r in raws && Keep(r) ==> Derive(r) in Normalize(raws)
    ensures forall row :: row in Normalize(raws) ==>
              Source(row) in raws && Keep(Source(row)) && Derive(Source(row)) == row
    decreases |raws|
  {
    if |raws| > 0 {
      NormalizeKeeps(raws[1..]);
      forall r | r in raws && Keep(r)
        ensures Derive(r) in Normalize(raws)
      {
        if r != raws[0] {
          assert r in raws[1..];
        }
      }
    }
  }
}
