/**
  The decision rule and status dispatch of `validate_email` in clay.py. The HTTP request
  itself is not modelled: a call is given the replies the service would send to the
  successive identical requests it issues.
 */
module EmailValidation {
  import opened Common

  /** The `quality_score` field: absent, a number, or something `float(...)` rejects. */
  datatype Score = Absent | Number(value: real) | NotNumeric

  /** The fields of a decoded response body that the rule reads. */
  datatype Body = Body(deliverability: Option<string>, qualityScore: Score, validFormat: Option<bool>)

  /**
    One reply to one request: a status code with its body (`None` when the body is not
    JSON), or an exception raised by the transport.
   */
  datatype Reply = Status(code: int, json: Option<Body>) | Raised

  const Deliverable: string := "DELIVERABLE"
  const QualityThreshold: real := 0.7
  const StatusOk: int := 200
  const StatusRateLimited: int := 429
  const StatusQuotaReached: int := 422

  predicate RateLimited(r: Reply) {
    r.Status? && r.code == StatusRateLimited
  }

  /**
    The rule applied to a 200 body: deliverable, a score above 0.7 (missing counts as 0),
    and a format flag that is true (missing counts as false). A score that is not a number
    raises inside the `try`, which answers false.
   */
  function Decide(b: Body): (keep: bool)
    ensures keep <==>
      && b.deliverability == Some(Deliverable)
      && b.qualityScore.Number? && b.qualityScore.value > QualityThreshold
      && b.validFormat == Some(true)
  {
    if b.qualityScore.NotNumeric? then false
    else
      var isDeliverable := b.deliverability == Some(Deliverable);
      var score := if b.qualityScore.Number? then b.qualityScore.value else 0.0;
      var isValidFormat := if b.validFormat.Some? then b.validFormat.value else false;
      isDeliverable && score > QualityThreshold && isValidFormat
  }

  /** The answer to a reply that is not a 429: only a decoded 200 body can keep the address. */
  function Verdict(r: Reply): (keep: bool)
    requires !RateLimited(r)
    ensures keep <==> r.Status? && r.code == StatusOk && r.json.Some? && Decide(r.json.value)
  {
    match r
    case Raised => false
    case Status(code, json) =>
      if code == StatusOk then
        if json.Some? then Decide(json.value) else false
      else if code == StatusQuotaReached then
        false
      else
        false
  }

  /** Some request eventually gets a reply other than 429. */
  predicate Settles(replies: seq<Reply>) {
    exists i :: 0 <= i < |replies| && !RateLimited(replies[i])
  }

  /** How many requests one validation issues: every 429 is followed by one more. */
  function RequestsIssued(replies: seq<Reply>): (n: nat)
    requires Settles(replies)
    ensures 1 <= n <= |replies|
    ensures forall j :: 0 <= j < n - 1 ==> RateLimited(replies[j])
    ensures !RateLimited(replies[n - 1])
    decreases |replies|
  {
    if RateLimited(replies[0]) then
      assert Settles(replies[1..]) by {
        var i :| 0 <= i < |replies| && !RateLimited(replies[i]);
        assert replies[1..][i - 1] == replies[i];
      }
      1 + RequestsIssued(replies[1..])
    else
      1
  }

  /** `validate_email`: a 429 retries the identical request; any other reply decides. */
  function Validate(replies: seq<Reply>): (keep: bool)
    requires Settles(replies)
    ensures keep == Verdict(replies[RequestsIssued(replies) - 1])
    decreases |replies|
  {
    if RateLimited(replies[0]) then
      assert Settles(replies[1..]) by {
        var i :| 0 <= i < |replies| && !RateLimited(replies[i]);
        assert replies[1..][i - 1] == replies[i];
      }
      Validate(replies[1..])
    else
      Verdict(replies[0])
  }

  /** Replies after the first one that is not a 429 are never requested. */
  lemma {:induction false} ValidateIgnoresLaterReplies(replies: seq<Reply>, later: seq<Reply>)
    requires Settles(replies)
    ensures Settles(replies + later)
    ensures RequestsIssued(replies + later) == RequestsIssued(replies)
    ensures Validate(replies + later) == Validate(replies)
    decreases |replies|
  {
    var i :| 0 <= i < |replies| && !RateLimited(replies[i]);
    assert (replies + later)[i] == replies[i];
    if RateLimited(replies[0]) {
      assert Settles(replies[1..]) by {
        assert replies[1..][i - 1] == replies[i];
      }
      assert (replies + later)[1..] == replies[1..] + later;
      ValidateIgnoresLaterReplies(replies[1..], later);
    }
  }

  /** A 422 answers false at once, whatever the service would have said next. */
  lemma QuotaReachedIsFinal(body: Option<Body>, later: seq<Reply>)
    ensures Settles([Status(StatusQuotaReached, body)] + later)
    ensures RequestsIssued([Status(StatusQuotaReached, body)] + later) == 1
    ensures !Validate([Status(StatusQuotaReached, body)] + later)
  {
    assert ([Status(StatusQuotaReached, body)] + later)[0] == Status(StatusQuotaReached, body);
  }

  /** A 429 first is the same as asking again: the remaining replies decide. */
  lemma RateLimitedRetries(body: Option<Body>, replies: seq<Reply>)
    requires Settles(replies)
    ensures Settles([Status(StatusRateLimited, body)] + replies)
    ensures Validate([Status(StatusRateLimited, body)] + replies) == Validate(replies)
    ensures RequestsIssued([Status(StatusRateLimited, body)] + replies) == 1 + RequestsIssued(replies)
  {
    var all := [Status(StatusRateLimited, body)] + replies;
    assert all[1..] == replies;
    var i :| 0 <= i < |replies| && !RateLimited(replies[i]);
    assert all[i + 1] == replies[i];
  }

  /**
    The whole decision in one statement: an address is kept exactly when the first reply
    that is not a 429 is a 200 whose body passes every part of the rule.
   */
  lemma ValidateKeepsIff(replies: seq<Reply>)
    requires Settles(replies)
    ensures Validate(replies) <==>
      exists i :: 0 <= i < |replies| && (forall j :: 0 <= j < i ==> RateLimited(replies[j]))
        && replies[i].Status? && replies[i].code == StatusOk && replies[i].json.Some?
        && replies[i].json.value.deliverability == Some(Deliverable)
        && replies[i].json.value.qualityScore.Number?
        && replies[i].json.value.qualityScore.value > QualityThreshold
        && replies[i].json.value.validFormat == Some(true)
  {
    var n := RequestsIssued(replies);
    if Validate(replies) {
      assert replies[n - 1].Status?;
    } else {
      forall i | 0 <= i < |replies| && (forall j :: 0 <= j < i ==> RateLimited(replies[j]))
        ensures !(replies[i].Status? && replies[i].code == StatusOk && replies[i].json.Some?
          && Decide(replies[i].json.value))
      {
        if i < n - 1 {
          assert RateLimited(replies[i]);
        } else if i > n - 1 {
          assert false;
        }
      }
    }
  }
}
