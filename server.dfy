/**
 * The five poll route handlers of the backend as methods on a store of poll
 * documents. Each loads one document, runs its guards in the order the
 * handler does, changes one or two fields, stores the document back and,
 * for a vote or a close, emits one event to the poll's room.
 */
module Server {
  import opened Wrappers
  import opened Polls
  import opened Broadcast

  /** The answer to a successful create: the new id and the admin key. */
  datatype Created = Created(pollId: PollId, adminKey: string)

  /** The answer to a successful vote. */
  datatype VoteReply = VoteReply(votes: seq<int>, totalVotes: int)

  /**
   * How a document may change from one request to a later one: question,
   * options, creation time and admin key stay, counters only grow, and a
   * poll that is inactive stays inactive.
   */
  predicate Successor(p: Poll, q: Poll) {
    && q.question == p.question
    && q.options == p.options
    && q.createdAt == p.createdAt
    && q.adminKey == p.adminKey
    && |q.votes| == |p.votes|
    && (forall k :: 0 <= k < |p.votes| ==> p.votes[k] <= q.votes[k])
    && (!p.isActive ==> !q.isActive)
  }

  /** Every poll of the earlier store is still stored, as a successor of itself. */
  ghost predicate Evolves(before: map<PollId, Poll>, after: map<PollId, Poll>) {
    forall id :: id in before ==> id in after && Successor(before[id], after[id])
  }

  /** Evolution composes, so any run of requests evolves the store. */
  lemma EvolvesTransitive(a: map<PollId, Poll>, b: map<PollId, Poll>, c: map<PollId, Poll>)
    requires Evolves(a, b) && Evolves(b, c)
    ensures Evolves(a, c)
  {
  }

  /** The vote total of a poll never decreases over its life, and a closed poll is never reopened. */
  lemma {:induction false} SuccessorTotals(p: Poll, q: Poll)
    requires Successor(p, q)
    ensures Sum(p.votes) <= Sum(q.votes)
    ensures !p.isActive ==> !q.isActive
  {
    SumMonotone(p.votes, q.votes);
  }

  /** Every document of a store is well formed. */
  ghost predicate AllWellFormed(polls: map<PollId, Poll>) {
    forall id :: id in polls ==> WellFormed(polls[id])
  }

  /** Replacing one stored document by a well-formed successor keeps the store valid and evolves it. */
  lemma StoreUpdate(polls: map<PollId, Poll>, id: PollId, q: Poll)
    requires AllWellFormed(polls) && id in polls
    requires Successor(polls[id], q) && WellFormed(q)
    ensures AllWellFormed(polls[id := q]) && Evolves(polls, polls[id := q])
  {
  }

  /** A store that did not change has evolved trivially. */
  lemma EvolvesReflexive(polls: map<PollId, Poll>)
    ensures Evolves(polls, polls)
  {
  }

  /** Counting one vote keeps a document well formed and makes it a successor of itself. */
  lemma BumpSuccessor(p: Poll, i: int)
    requires WellFormed(p) && 0 <= i < |p.options|
    ensures var q := p.(votes := p.votes[i := p.votes[i] + 1]);
      WellFormed(q) && Successor(p, q)
  {
  }

  class PollService {
    var polls: map<PollId, Poll>
    const hub: Hub

    ghost predicate Valid()
      reads this
    {
      AllWellFormed(polls)
    }

    constructor (hub: Hub)
      ensures Valid() && polls == map[] && this.hub == hub
    {
      this.hub := hub;
      polls := map[];
    }

    /**
     * POST /api/polls. The admin key (random in the source) and the new
     * document id (chosen by the store) are parameters.
     */
    method Create(question: Option<string>, options: Option<seq<string>>, expiresInMinutes: Option<int>,
                  now: int, adminKey: string, newId: PollId)
      returns (r: Result<Created, Error>)
      requires Valid() && newId !in polls
      modifies this
      ensures Valid() && Evolves(old(polls), polls)
      ensures !CreateRequestValid(question, options) ==> r == Err(BadRequest) && polls == old(polls)
      ensures CreateRequestValid(question, options) ==>
        && r == Ok(Created(newId, adminKey))
        && polls == old(polls)[newId := NewPoll(question.value, options.value, now, expiresInMinutes, adminKey)]
    {
      if question.None? || question.value == "" || options.None? || |options.value| < 2 {
        return Err(BadRequest);
      }
      var poll := NewPoll(question.value, options.value, now, expiresInMinutes, adminKey);
      polls := polls[newId := poll];
      r := Ok(Created(newId, adminKey));
    }

    /** GET /api/polls/:id, with lazy expiry. The whole document is returned, admin key included. */
    method Get(id: PollId, now: int) returns (r: Result<Poll, Error>)
      requires Valid()
      modifies this
      ensures Valid() && Evolves(old(polls), polls)
      ensures id !in old(polls) ==> r == Err(NotFound) && polls == old(polls)
      ensures id in old(polls) ==>
        && r == Ok(Expire(old(polls)[id], now))
        && polls == old(polls)[id := Expire(old(polls)[id], now)]
    {
      if id !in polls {
        return Err(NotFound);
      }
      var poll := polls[id];
      if IsExpired(poll.expiresAt, now) {
        poll := poll.(isActive := false);
        polls := polls[id := poll];
      }
      r := Ok(poll);
    }

    /**
     * POST /api/polls/:id/vote. Guards, first failure wins: unknown id,
     * inactive poll, deadline passed (which also marks the poll inactive),
     * option index out of range.
     */
    method Vote(id: PollId, optionIndex: int, now: int) returns (r: Result<VoteReply, Error>)
      requires Valid()
      modifies this, hub
      ensures Valid() && Evolves(old(polls), polls)
      ensures hub.rooms == old(hub.rooms)
      ensures r.Err? ==> hub.log == old(hub.log) && polls.Keys == old(polls).Keys
      ensures r.Err? ==> forall k :: k in old(polls) ==> polls[k].votes == old(polls)[k].votes
      ensures id !in old(polls) ==> r == Err(NotFound) && polls == old(polls)
      ensures id in old(polls) ==>
        var p := old(polls)[id];
        if !p.isActive then
          r == Err(Inactive) && polls == old(polls)
        else if IsExpired(p.expiresAt, now) then
          r == Err(Expired) && polls == old(polls)[id := p.(isActive := false)]
        else if optionIndex < 0 || optionIndex >= |p.options| then
          r == Err(InvalidOption) && polls == old(polls)
        else
          var votes := p.votes[optionIndex := p.votes[optionIndex] + 1];
          && Sum(votes) == Sum(p.votes) + 1
          && r == Ok(VoteReply(votes, Sum(votes)))
          && polls == old(polls)[id := p.(votes := votes)]
          && hub.log == old(hub.log) + [Event(id, Members(old(hub.rooms), id), VoteUpdate(votes, Sum(votes)))]
    {
      EvolvesReflexive(polls);
      if id !in polls {
        return Err(NotFound);
      }
      var poll := polls[id];
      if !poll.isActive {
        return Err(Inactive);
      }
      if IsExpired(poll.expiresAt, now) {
        StoreUpdate(polls, id, poll.(isActive := false));
        polls := polls[id := poll.(isActive := false)];
        return Err(Expired);
      }
      if optionIndex < 0 || optionIndex >= |poll.options| {
        return Err(InvalidOption);
      }
      r := CountVote(id, poll, optionIndex);
    }

    /** The success path of a vote: one counter grows by one, the room is told, the new tally is answered. */
    method CountVote(id: PollId, poll: Poll, optionIndex: int) returns (r: Result<VoteReply, Error>)
      requires Valid() && id in polls && polls[id] == poll && 0 <= optionIndex < |poll.options|
      modifies this, hub
      ensures Valid() && Evolves(old(polls), polls)
      ensures hub.rooms == old(hub.rooms)
      ensures
        var votes := poll.votes[optionIndex := poll.votes[optionIndex] + 1];
        && Sum(votes) == Sum(poll.votes) + 1
        && r == Ok(VoteReply(votes, Sum(votes)))
        && polls == old(polls)[id := poll.(votes := votes)]
        && hub.log == old(hub.log) + [Event(id, Members(old(hub.rooms), id), VoteUpdate(votes, Sum(votes)))]
    {
      var votes := poll.votes[optionIndex := poll.votes[optionIndex] + 1];
      var total := Sum(votes);
      SumBump(poll.votes, optionIndex);
      BumpSuccessor(poll, optionIndex);
      StoreUpdate(polls, id, poll.(votes := votes));
      polls := polls[id := poll.(votes := votes)];
      hub.Emit(id, VoteUpdate(votes, total));
      r := Ok(VoteReply(votes, total));
    }

    /** POST /api/polls/:id/admin/close: with the right key the poll is marked inactive and the room told so. */
    method Close(id: PollId, adminKey: Option<string>) returns (r: Result<(), Error>)
      requires Valid()
      modifies this, hub
      ensures Valid() && Evolves(old(polls), polls)
      ensures hub.rooms == old(hub.rooms)
      ensures r.Err? ==> polls == old(polls) && hub.log == old(hub.log)
      ensures id !in old(polls) ==> r == Err(NotFound)
      ensures id in old(polls) && !Authorized(old(polls)[id], adminKey) ==> r == Err(Forbidden)
      ensures id in old(polls) && Authorized(old(polls)[id], adminKey) ==>
        && r == Ok(())
        && polls == old(polls)[id := old(polls)[id].(isActive := false)]
        && hub.log == old(hub.log) + [Event(id, Members(old(hub.rooms), id), PollStatusUpdate(false))]
    {
      EvolvesReflexive(polls);
      if id !in polls {
        return Err(NotFound);
      }
      var poll := polls[id];
      if adminKey != Some(poll.adminKey) {
        return Err(Forbidden);
      }
      StoreUpdate(polls, id, poll.(isActive := false));
      polls := polls[id := poll.(isActive := false)];
      hub.Emit(id, PollStatusUpdate(false));
      r := Ok(());
    }

    /**
     * POST /api/polls/:id/admin/extend: with the right key and a positive
     * duration the deadline moves; the answer is the deadline afterwards.
     * Neither the activity flag nor the tally is touched.
     */
    method Extend(id: PollId, adminKey: Option<string>, extendMinutes: Option<int>, now: int)
      returns (r: Result<Option<int>, Error>)
      requires Valid()
      modifies this
      ensures Valid() && Evolves(old(polls), polls)
      ensures r.Err? ==> polls == old(polls)
      ensures id !in old(polls) ==> r == Err(NotFound)
      ensures id in old(polls) && !Authorized(old(polls)[id], adminKey) ==> r == Err(Forbidden)
      ensures id in old(polls) && Authorized(old(polls)[id], adminKey) ==>
        var e := ExtendedExpiry(old(polls)[id].expiresAt, now, extendMinutes);
        && r == Ok(e)
        && polls == old(polls)[id := old(polls)[id].(expiresAt := e)]
        && polls[id].isActive == old(polls)[id].isActive
        && polls[id].votes == old(polls)[id].votes
    {
      EvolvesReflexive(polls);
      if id !in polls {
        return Err(NotFound);
      }
      var poll := polls[id];
      if adminKey != Some(poll.adminKey) {
        return Err(Forbidden);
      }
      if extendMinutes.Some? && extendMinutes.value > 0 {
        var base := if poll.expiresAt.Some? then poll.expiresAt.value else now;
        poll := poll.(expiresAt := Some(base + extendMinutes.value * MillisPerMinute));
        StoreUpdate(polls, id, poll);
        polls := polls[id := poll];
      }
      r := Ok(poll.expiresAt);
    }
  }

  /**
   * A sample run, one request after another: a two-option poll that runs
   * one minute is created; the run goes on in the methods below.
   */
  method TallyScenario() {
    var hub := new Hub();
    var service := new PollService(hub);
    var t := 1000;
    var created := service.Create(Some("Q"), Some(["A", "B"]), Some(1), t, "key", "p");
    assert created == Ok(Created("p", "key"));
    var deadline := t + MillisPerMinute;
    assert service.polls["p"] == Poll("Q", ["A", "B"], [0, 0], t, Some(deadline), "key", true);
    assert service.polls.Keys == {"p"};
    assert service.polls == map["p" := Poll("Q", ["A", "B"], [0, 0], t, Some(deadline), "key", true)];
    FirstVotes(service, t);
  }

  /** The sample run: the poll takes its first two votes, both for the first option. */
  method FirstVotes(service: PollService, t: int)
    requires service.Valid()
    requires service.polls == map["p" := Poll("Q", ["A", "B"], [0, 0], t, Some(t + MillisPerMinute), "key", true)]
    modifies service, service.hub
  {
    var deadline := t + MillisPerMinute;
    var reply := service.Vote("p", 0, t + 1);
    assert service.polls["p"] == Poll("Q", ["A", "B"], [1, 0], t, Some(deadline), "key", true);
    assert service.polls.Keys == {"p"};
    assert service.polls == map["p" := Poll("Q", ["A", "B"], [1, 0], t, Some(deadline), "key", true)];
    reply := service.Vote("p", 0, t + 2);
    assert service.polls["p"] == Poll("Q", ["A", "B"], [2, 0], t, Some(deadline), "key", true);
    assert service.polls.Keys == {"p"};
    assert service.polls == map["p" := Poll("Q", ["A", "B"], [2, 0], t, Some(deadline), "key", true)];
    TallyScenarioContinued(service, t);
  }

  /**
   * The sample run continued: one more vote for each option, the last one
   * exactly at the deadline (which is not yet past), gives the tally [3, 1]
   * with total 4.
   */
  method TallyScenarioContinued(service: PollService, t: int)
    requires service.Valid()
    requires service.polls == map["p" := Poll("Q", ["A", "B"], [2, 0], t, Some(t + MillisPerMinute), "key", true)]
    modifies service, service.hub
  {
    var deadline := t + MillisPerMinute;
    var reply := service.Vote("p", 1, t + 3);
    assert service.polls["p"] == Poll("Q", ["A", "B"], [2, 1], t, Some(deadline), "key", true);
    reply := service.Vote("p", 0, deadline);
    assert reply.Ok? && reply.value.votes == [3, 1];
    assert Sum([3, 1]) == 4;
    assert reply == Ok(VoteReply([3, 1], 4));
    assert service.polls == map["p" := Poll("Q", ["A", "B"], [3, 1], t, Some(deadline), "key", true)];
    ExpiryScenario(service, t);
  }

  /**
   * The same poll past its deadline: the next vote is refused as expired
   * and marks the poll inactive; after the admin extends the deadline every
   * vote is refused as inactive, since nothing sets the flag back.
   */
  method ExpiryScenario(service: PollService, t: int)
    requires service.Valid()
    requires service.polls == map["p" := Poll("Q", ["A", "B"], [3, 1], t, Some(t + MillisPerMinute), "key", true)]
    modifies service, service.hub
  {
    var deadline := t + MillisPerMinute;
    var reply := service.Vote("p", 0, deadline + 1);
    assert reply == Err(Expired);
    assert service.polls["p"] == Poll("Q", ["A", "B"], [3, 1], t, Some(deadline), "key", false);
    var extended := service.Extend("p", Some("key"), Some(10), deadline + 2);
    assert extended == Ok(Some(deadline + 10 * MillisPerMinute));
    reply := service.Vote("p", 0, deadline + 3);
    assert reply == Err(Inactive);
  }

  /** A poll created without a deadline and extended by ten minutes expires ten minutes after the extension. */
  method ExtendWithoutDeadlineScenario() {
    var hub := new Hub();
    var service := new PollService(hub);
    var created := service.Create(Some("Q"), Some(["A", "B"]), None, 0, "key", "p");
    var wrong := service.Extend("p", Some("other"), Some(10), 5000);
    assert wrong == Err(Forbidden);
    var extended := service.Extend("p", Some("key"), Some(10), 5000);
    assert extended == Ok(Some(5000 + 10 * MillisPerMinute));
  }
}
