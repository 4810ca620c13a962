/**
 * The conditional-GET gate (compose/util.go): the If-Modified-Since check of
 * section 3.3 of RFC 7232, answering 304 Not Modified (section 4.1 of
 * RFC 7232). Timestamps are integer nanoseconds from the Unix epoch; the
 * parsed header is whole seconds, or None when it is absent or does not
 * parse as an HTTP-date.
 */
module Util {
  import opened Store

  const StatusNotModified: int := 304

  /** lastModified.UTC().Truncate(time.Second), as whole seconds: the largest
      second that does not come after `ns`. It is also the value of the
      Last-Modified header, whose IMF-fixdate form has no fraction of a second. */
  function TruncateToSecond(ns: int): (s: int)
    ensures s * NanosPerSecond <= ns < (s + 1) * NanosPerSecond
  {
    ns / NanosPerSecond
  }

  /** The boolean CheckModifiedHandler returns and the status it writes, if any. */
  datatype Revalidation = Revalidation(notModified: bool, status: Option<int>)

  /**
   * CheckModifiedHandler: with no parseable If-Modified-Since it returns
   * false and writes nothing; otherwise it writes 304 and returns true
   * exactly when the truncated lastModified is not after the validator.
   */
  function CheckModifiedHandler(ifModifiedSince: Option<int>, lastModified: int): (r: Revalidation)
    ensures r.status == (if r.notModified then Some(StatusNotModified) else None)
    ensures ifModifiedSince.None? ==> !r.notModified
    ensures ifModifiedSince.Some? ==>
              (r.notModified <==> lastModified < (ifModifiedSince.value + 1) * NanosPerSecond)
  {
    match ifModifiedSince
    case None => Revalidation(false, None)
    case Some(since) =>
      var truncated := TruncateToSecond(lastModified);
      if truncated > since then Revalidation(false, None)
      else Revalidation(true, Some(StatusNotModified))
  }

  /** Two timestamps in the same second get the same answer for every validator. */
  lemma SubSecondIrrelevant(ifModifiedSince: Option<int>, a: int, b: int)
    requires TruncateToSecond(a) == TruncateToSecond(b)
    ensures CheckModifiedHandler(ifModifiedSince, a) == CheckModifiedHandler(ifModifiedSince, b)
  {
  }

  /** A validator equal to the resource's second is answered 304 Not Modified. */
  lemma SameSecondIsNotModified(second: int, fraction: int)
    requires 0 <= fraction < NanosPerSecond
    ensures CheckModifiedHandler(Some(second), second * NanosPerSecond + fraction)
            == Revalidation(true, Some(StatusNotModified))
  {
  }

  /** A validator one second earlier than the resource's second is stale. */
  lemma EarlierSecondIsStale(second: int, fraction: int)
    requires 0 <= fraction < NanosPerSecond
    ensures CheckModifiedHandler(Some(second - 1), second * NanosPerSecond + fraction)
            == Revalidation(false, None)
  {
  }

  /** A client that sends back the Last-Modified value it was given is answered 304
      as long as the resource has not changed. */
  lemma LastModifiedRevalidates(lastModified: int)
    ensures CheckModifiedHandler(Some(TruncateToSecond(lastModified)), lastModified).notModified
  {
  }

  /** A timestamp in the second `s` is truncated to `s`: the second is unique. */
  lemma SecondIsUnique(t: int, s: int)
    requires s * NanosPerSecond <= t < (s + 1) * NanosPerSecond
    ensures TruncateToSecond(t) == s
  {
  }

  /** Storing a time with millisecond precision keeps its second, so the
      Last-Modified header of a stored post is that of its save time. */
  lemma {:induction false} MillisecondsKeepTheSecond(t: int)
    ensures TruncateToSecond(ToBsonTime(t)) == TruncateToSecond(t)
  {
    var s := TruncateToSecond(t);
    var m := t / NanosPerMilli;
    assert ToBsonTime(t) == m * NanosPerMilli;
    assert s * NanosPerSecond == (s * 1000) * NanosPerMilli;
    assert s * 1000 <= m;
    assert s * NanosPerSecond <= ToBsonTime(t);
    SecondIsUnique(ToBsonTime(t), s);
  }
}
