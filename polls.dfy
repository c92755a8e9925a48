/**
 * The poll document of the backend and the pure helpers its route handlers
 * use: the expiry test, the vote total, the expiry date chosen at creation
 * and by the admin extend action, and the creation-request check.
 * Times are integer milliseconds since the epoch.
 */
module Polls {
  import opened Wrappers

  /** The document id; also the name of the socket room of the poll. */
  type PollId = string

  const MillisPerMinute: int := 60 * 1000

  /** One stored poll document (the Mongo schema of the backend). */
  datatype Poll = Poll(
    question: string,
    options: seq<string>,
    votes: seq<int>,
    createdAt: int,
    expiresAt: Option<int>,
    adminKey: string,
    isActive: bool)

  /** The rejections a route handler can answer with. */
  datatype Error = BadRequest | NotFound | Inactive | Expired | InvalidOption | Forbidden

  /** What every stored document satisfies: one counter per option, none negative, at least two options. */
  predicate WellFormed(p: Poll) {
    && |p.options| >= 2
    && |p.votes| == |p.options|
    && forall k :: 0 <= k < |p.votes| ==> p.votes[k] >= 0
  }

  /** The total of a tally, summed left to right as `reduce((sum, vote) => sum + vote, 0)` does. */
  function Sum(s: seq<int>): int {
    if s == [] then 0 else Sum(s[..|s| - 1]) + s[|s| - 1]
  }

  /** Adding one to a single counter adds one to the total. */
  lemma {:induction false} SumBump(s: seq<int>, i: int)
    requires 0 <= i < |s|
    ensures Sum(s[i := s[i] + 1]) == Sum(s) + 1
  {
    var t := s[i := s[i] + 1];
    if i == |s| - 1 {
      assert t[..|t| - 1] == s[..|s| - 1];
    } else {
      assert t[..|t| - 1] == s[..|s| - 1][i := s[i] + 1];
      SumBump(s[..|s| - 1], i);
    }
  }

  /** A tally that grows pointwise has a total that does not shrink. */
  lemma {:induction false} SumMonotone(s: seq<int>, t: seq<int>)
    requires |s| == |t|
    requires forall k :: 0 <= k < |s| ==> s[k] <= t[k]
    ensures Sum(s) <= Sum(t)
  {
    if s != [] {
      SumMonotone(s[..|s| - 1], t[..|t| - 1]);
    }
  }

  /** A tally of non-negative counters has a non-negative total. */
  lemma {:induction false} SumNonNegative(s: seq<int>)
    requires forall k :: 0 <= k < |s| ==> s[k] >= 0
    ensures Sum(s) >= 0
  {
    if s != [] {
      SumNonNegative(s[..|s| - 1]);
    }
  }

  /** The fresh tally `Array(n).fill(0)` totals zero. */
  lemma {:induction false} SumZeros(n: nat)
    ensures Sum(seq(n, _ => 0)) == 0
  {
    if n > 0 {
      assert seq(n, _ => 0)[..n - 1] == seq(n - 1, _ => 0);
      SumZeros(n - 1);
    }
  }

  /** `poll.expiresAt && new Date() > poll.expiresAt`: a deadline is set and `now` is strictly past it. */
  predicate IsExpired(expiresAt: Option<int>, now: int) {
    expiresAt.Some? && now > expiresAt.value
  }

  /** The lazy expiry the get and vote paths apply: a poll past its deadline is marked inactive. */
  function Expire(p: Poll, now: int): (q: Poll)
    ensures q.isActive <==> p.isActive && !IsExpired(p.expiresAt, now)
    ensures q.(isActive := p.isActive) == p
  {
    if IsExpired(p.expiresAt, now) then p.(isActive := false) else p
  }

  /** The deadline chosen at creation: `now + m` minutes when a positive duration is given, else none. */
  function ExpiryFor(now: int, minutes: Option<int>): (e: Option<int>)
    ensures e.Some? <==> minutes.Some? && minutes.value > 0
    ensures e.Some? ==> e.value == now + minutes.value * MillisPerMinute && e.value > now
  {
    if minutes.Some? && minutes.value > 0 then Some(now + minutes.value * MillisPerMinute) else None
  }

  /** The deadline after an admin extend: a positive duration is added to the old deadline, or to `now` when there was none; otherwise nothing changes. */
  function ExtendedExpiry(expiresAt: Option<int>, now: int, minutes: Option<int>): (e: Option<int>)
    ensures !(minutes.Some? && minutes.value > 0) ==> e == expiresAt
    ensures minutes.Some? && minutes.value > 0 ==>
      e.Some? && e.value - minutes.value * MillisPerMinute == (if expiresAt.Some? then expiresAt.value else now)
  {
    if minutes.Some? && minutes.value > 0 then
      var base := if expiresAt.Some? then expiresAt.value else now;
      Some(base + minutes.value * MillisPerMinute)
    else
      expiresAt
  }

  /**
   * Extending never brings a deadline forward: whenever the poll would count
   * as expired after the extension it already counted as expired before,
   * and a poll that had no deadline is not expired at the moment of extension.
   */
  lemma ExtendPostpones(expiresAt: Option<int>, now: int, minutes: Option<int>, t: int)
    ensures expiresAt.Some? && IsExpired(ExtendedExpiry(expiresAt, now, minutes), t) ==> IsExpired(expiresAt, t)
    ensures expiresAt.None? ==> !IsExpired(ExtendedExpiry(expiresAt, now, minutes), now)
    ensures expiresAt.Some? && minutes.Some? && minutes.value > 0 ==>
      ExtendedExpiry(expiresAt, now, minutes).value > expiresAt.value
  {
  }

  /**
   * Extending a deadline that has long passed adds the duration to the old
   * deadline, not to `now`, so the poll can still be expired right after the
   * extension.
   */
  lemma ExtendOfLongExpiredPollStaysExpired()
    ensures IsExpired(ExtendedExpiry(Some(0), 10 * MillisPerMinute + 1, Some(10)), 10 * MillisPerMinute + 1)
  {
  }

  /** The create guard `!question || !options || options.length < 2`, negated. */
  predicate CreateRequestValid(question: Option<string>, options: Option<seq<string>>) {
    question.Some? && question.value != "" && options.Some? && |options.value| >= 2
  }

  /** The document `new Poll({...})` builds for a request that passed the create guard. */
  function NewPoll(question: string, options: seq<string>, now: int, minutes: Option<int>, adminKey: string): (p: Poll)
    requires |options| >= 2
    ensures WellFormed(p) && p.isActive && Sum(p.votes) == 0
    ensures forall k :: 0 <= k < |p.votes| ==> p.votes[k] == 0
    ensures p.question == question && p.options == options && p.adminKey == adminKey && p.createdAt == now
    ensures p.expiresAt.Some? <==> minutes.Some? && minutes.value > 0
    ensures p.expiresAt.Some? ==> p.expiresAt.value == now + minutes.value * MillisPerMinute
  {
    SumZeros(|options|);
    Poll(question, options, seq(|options|, _ => 0), now, ExpiryFor(now, minutes), adminKey, true)
  }

  /** `poll.adminKey !== adminKey`, negated: the request carries exactly the stored key. */
  predicate Authorized(p: Poll, adminKey: Option<string>) {
    adminKey == Some(p.adminKey)
  }
}
