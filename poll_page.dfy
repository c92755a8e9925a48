/**
 * The pure fragments of the poll page of the frontend: the countdown shown
 * while a poll has a deadline, the two socket handlers that merge live
 * updates into the displayed poll, the `votedPolls` marker kept in local
 * storage, and the checks run before a vote or an admin request is sent.
 */
module PollPage {
  import opened Wrappers
  import opened Polls
  import opened Broadcast
  import Server

  /** What the countdown shows: the deadline has passed, or hours, minutes and seconds remain. */
  datatype TimeLeft = Over | Remaining(hours: nat, minutes: nat, seconds: nat)

  /** The milliseconds a remaining time stands for (an hour is 3600000 ms, a minute 60000, a second 1000). */
  function Millis(t: TimeLeft): int
    requires t.Remaining?
  {
    t.hours * 3600000 + t.minutes * 60000 + t.seconds * 1000
  }

  /**
   * The arithmetic behind the countdown: splitting a positive difference
   * into floored hours, minutes and seconds loses less than one second.
   */
  lemma {:induction false} SplitBounds(diff: int)
    requires diff > 0
    ensures var t := Remaining(diff / 3600000, (diff % 3600000) / 60000, (diff % 60000) / 1000);
      t.minutes < 60 && t.seconds < 60 && Millis(t) <= diff < Millis(t) + 1000
  {
    var h, r1 := diff / 3600000, diff % 3600000;
    assert diff == h * 3600000 + r1 && 0 <= r1 < 3600000;
    var m, r2 := r1 / 60000, r1 % 60000;
    assert r1 == m * 60000 + r2 && 0 <= r2 < 60000 && m < 60;
    assert diff == (h * 60 + m) * 60000 + r2;
    assert diff % 60000 == r2;
    var s, r3 := r2 / 1000, r2 % 1000;
    assert r2 == s * 1000 + r3 && 0 <= r3 < 1000 && s < 60;
    assert h * 3600000 + m * 60000 + s * 1000 == diff - r3;
  }

  /**
   * The countdown of a difference `expires - now`: nothing is left when it
   * is not positive; otherwise whole hours, then the minutes and seconds of
   * what remains, each floored.
   */
  function Decompose(diff: int): (t: TimeLeft)
    ensures t.Over? <==> diff <= 0
    ensures t.Remaining? ==> t.minutes < 60 && t.seconds < 60
    ensures t.Remaining? ==> Millis(t) <= diff < Millis(t) + 1000
  {
    if diff <= 0 then Over
    else
      SplitBounds(diff);
      Remaining(diff / 3600000, (diff % 3600000) / 60000, (diff % 60000) / 1000)
  }

  /** The bounds above pin the countdown down: no other reading of a positive difference meets them. */
  lemma DecomposeUnique(diff: int, t: TimeLeft)
    requires diff > 0 && t.Remaining? && t.minutes < 60 && t.seconds < 60
    requires Millis(t) <= diff < Millis(t) + 1000
    ensures Decompose(diff) == t
  {
    var h, m, s := t.hours, t.minutes, t.seconds;
    var ms := diff - (h * 3600000 + m * 60000 + s * 1000);
    assert 0 <= ms < 1000;
    assert diff / 3600000 == h && diff % 3600000 == m * 60000 + s * 1000 + ms;
    assert (m * 60000 + s * 1000 + ms) / 60000 == m;
    assert diff % 60000 == s * 1000 + ms;
    assert (s * 1000 + ms) / 1000 == s;
    assert t == Remaining(h, m, s);
  }

  /** The character of one decimal digit. */
  function Digit(d: int): char
    requires 0 <= d < 10
  {
    ('0' as int + d) as char
  }

  /** The number a string of decimal digits denotes, read left to right. */
  function DigitsValue(s: string): int {
    if s == [] then 0 else DigitsValue(s[..|s| - 1]) * 10 + (s[|s| - 1] as int - '0' as int)
  }

  /**
   * Decimal digits, as `${n}` prints a non-negative integer: the digits read
   * back as `n`, and there is no leading zero.
   */
  function NatToString(n: nat): (s: string)
    ensures |s| >= 1
    ensures forall k :: 0 <= k < |s| ==> '0' <= s[k] <= '9'
    ensures DigitsValue(s) == n
    ensures s[0] == '0' <==> n == 0
  {
    if n < 10 then
      assert [Digit(n)][..0] == [];
      [Digit(n)]
    else
      var prefix := NatToString(n / 10);
      assert (prefix + [Digit(n % 10)])[..|prefix|] == prefix;
      prefix + [Digit(n % 10)]
  }

  /** The text of the countdown: `Expired`, or `<h>h <m>m <s>s` with the hours left out when there are none. */
  function Label(t: TimeLeft): (r: string)
    ensures r == "Expired" <==> t.Over?
    ensures |r| > 0 && (t.Remaining? ==> r[|r| - 1] == 's')
  {
    match t
    case Over => "Expired"
    case Remaining(h, m, s) =>
      var tail := NatToString(m) + "m " + NatToString(s) + "s";
      assert tail[|tail| - 1] == 's';
      var r := if h > 0 then NatToString(h) + "h " + tail else tail;
      assert r[|r| - 1] == 's' && "Expired"[6] == 'd';
      r
  }

  /** The hours part appears exactly when at least one whole hour is left. */
  lemma HoursShownOnlyWhenPositive(t: TimeLeft)
    ensures 'h' in Label(t) <==> t.Remaining? && t.hours > 0
  {
    match t
    case Over =>
      assert forall k :: 0 <= k < |"Expired"| ==> "Expired"[k] != 'h';
    case Remaining(h, m, s) =>
      var tail := NatToString(m) + "m " + NatToString(s) + "s";
      assert 'h' !in tail by {
        assert 'h' !in NatToString(m) && 'h' !in NatToString(s);
        assert forall k :: 0 <= k < |tail| ==> tail[k] != 'h';
      }
      if h > 0 {
        var lbl := NatToString(h) + "h " + tail;
        assert lbl[|NatToString(h)|] == 'h';
      }
  }

  /** The poll as the page holds it: the fetched document, plus the live total once an update arrived. */
  datatype View = View(
    question: string,
    options: seq<string>,
    votes: seq<int>,
    createdAt: int,
    expiresAt: Option<int>,
    adminKey: string,
    isActive: bool,
    totalVotes: Option<int>)

  /** The page state after the fetch: the document carries no `totalVotes` field. */
  function Fetched(p: Poll): (v: View)
    ensures v.totalVotes.None?
    ensures v.question == p.question && v.options == p.options && v.votes == p.votes
    ensures v.expiresAt == p.expiresAt && v.isActive == p.isActive
    ensures v.createdAt == p.createdAt && v.adminKey == p.adminKey
  {
    View(p.question, p.options, p.votes, p.createdAt, p.expiresAt, p.adminKey, p.isActive, None)
  }

  /** The `voteUpdate` handler: no poll stays no poll; otherwise only the tally and the total are replaced. */
  function OnVoteUpdate(prev: Option<View>, data: Payload): (r: Option<View>)
    requires data.VoteUpdate?
    ensures r.None? <==> prev.None?
    ensures r.Some? ==> r.value.votes == data.votes && r.value.totalVotes == Some(data.totalVotes)
    ensures r.Some? ==> r.value.(votes := prev.value.votes, totalVotes := prev.value.totalVotes) == prev.value
  {
    match prev
    case None => None
    case Some(v) => Some(v.(votes := data.votes, totalVotes := Some(data.totalVotes)))
  }

  /** The `pollStatusUpdate` handler: no poll stays no poll; otherwise only the activity flag is replaced. */
  function OnStatusUpdate(prev: Option<View>, data: Payload): (r: Option<View>)
    requires data.PollStatusUpdate?
    ensures r.None? <==> prev.None?
    ensures r.Some? ==> r.value.isActive == data.isActive
    ensures r.Some? ==> r.value.(isActive := prev.value.isActive) == prev.value
  {
    match prev
    case None => None
    case Some(v) => Some(v.(isActive := data.isActive))
  }

  /** The two handlers touch disjoint fields, so the order in which their events arrive does not matter. */
  lemma UpdatesCommute(prev: Option<View>, tally: Payload, status: Payload)
    requires tally.VoteUpdate? && status.PollStatusUpdate?
    ensures OnStatusUpdate(OnVoteUpdate(prev, tally), status) == OnVoteUpdate(OnStatusUpdate(prev, status), tally)
  {
  }

  /** A repeated event changes nothing further. */
  lemma UpdatesIdempotent(prev: Option<View>, tally: Payload, status: Payload)
    requires tally.VoteUpdate? && status.PollStatusUpdate?
    ensures OnVoteUpdate(OnVoteUpdate(prev, tally), tally) == OnVoteUpdate(prev, tally)
    ensures OnStatusUpdate(OnStatusUpdate(prev, status), status) == OnStatusUpdate(prev, status)
  {
  }

  /**
   * A page showing a fetched poll that then receives the update the server
   * sends for a vote shows the server's tally and its true total.
   */
  lemma LiveTallyMatchesServer(p: Poll, votes: seq<int>)
    ensures var v := OnVoteUpdate(Some(Fetched(p)), VoteUpdate(votes, Sum(votes)));
      && v.Some? && v.value.votes == votes && v.value.totalVotes == Some(Sum(votes))
      && v.value.(votes := p.votes, totalVotes := None) == Fetched(p)
  {
  }

  /**
   * The page keeps one socket for every poll it shows, and a socket is never
   * taken out of a room. After showing poll `a` and then poll `b`, the socket
   * still receives the tally events of `a`; since the payload names no poll,
   * the handler puts the tally of `a` on the view of `b`.
   */
  lemma StaleTallyReachesNextPoll(rooms: Rooms, log: seq<Event>, socket: SocketId, a: PollId, b: PollId, shown: View, votes: seq<int>)
    ensures var joined := Joined(Joined(rooms, a, socket), b, socket);
      var update := VoteUpdate(votes, Sum(votes));
      && Inbox(log + [Event(a, Members(joined, a), update)], socket, a) == Inbox(log, socket, a) + [update]
      && OnVoteUpdate(Some(shown), update) == Some(shown.(votes := votes, totalVotes := Some(Sum(votes))))
  {
    var joined := Joined(Joined(rooms, a, socket), b, socket);
    InboxAfterEmit(log, joined, a, VoteUpdate(votes, Sum(votes)), socket, a);
  }

  /** The `votedPolls` marker map of local storage. */
  type Markers = map<string, bool>

  /** `if (votedPolls[id]) setHasVoted(true)`: the marker is present and true. */
  predicate HasVoted(markers: Markers, id: PollId) {
    id in markers && markers[id]
  }

  /** `votedPolls[id] = true`: this poll is marked and every other entry is left as it was. */
  function MarkVoted(markers: Markers, id: PollId): (r: Markers)
    ensures id in r && r[id]
    ensures forall other :: other != id ==> (other in r <==> other in markers)
    ensures forall other :: other != id && other in markers ==> r[other] == markers[other]
  {
    markers[id := true]
  }

  /** After marking, the page reopened for this poll starts as voted; pages of other polls start as before. */
  lemma MarkedPollCountsAsVoted(markers: Markers, id: PollId, other: PollId)
    ensures HasVoted(MarkVoted(markers, id), id)
    ensures other != id ==> HasVoted(MarkVoted(markers, id), other) == HasVoted(markers, other)
  {
  }

  /** The markers after the vote request's answer: only a successful vote marks the poll. */
  function AfterVote(markers: Markers, id: PollId, reply: Result<Server.VoteReply, Error>): (r: Markers)
    ensures reply.Ok? ==> r == MarkVoted(markers, id)
    ensures reply.Err? ==> r == markers
  {
    if reply.Ok? then MarkVoted(markers, id) else markers
  }

  /** The messages the page shows instead of sending a request. */
  datatype ClientError = NoOptionSelected | MissingAdminKey | InvalidExtendMinutes

  /** `handleVote`, up to the request: the selected option index is sent, or nothing when none is selected. */
  function VoteRequest(selected: Option<int>): (r: Result<int, ClientError>)
    ensures r.Err? <==> selected.None?
    ensures r.Err? ==> r.error == NoOptionSelected
    ensures r.Ok? ==> r.value == selected.value
  {
    match selected
    case None => Err(NoOptionSelected)
    case Some(i) => Ok(i)
  }

  datatype AdminAction = CloseAction | ExtendAction

  /**
   * The extend-minutes field, a number input, as the comparison
   * `extendMinutes <= 0` reads it: the empty string (the only falsy one,
   * which the input also reports for text that is no valid number), or a
   * number written in plain decimal notation.
   */
  datatype MinutesField = EmptyField | Numeric(value: real)

  /**
   * `parseInt(extendMinutes)` as the request carries it: a number is
   * truncated towards zero; the empty field gives `NaN`, which arrives as
   * `null`.
   */
  function SentMinutes(field: MinutesField): (r: Option<int>)
    ensures field.Numeric? && field.value >= 0.0 ==>
      r.Some? && r.value >= 0 && r.value as real <= field.value < r.value as real + 1.0
    ensures !field.Numeric? ==> r.None?
  {
    match field
    case Numeric(v) => Some(if v >= 0.0 then v.Floor else -((-v).Floor))
    case EmptyField => None
  }

  /** The bodies of the two admin requests. */
  datatype AdminRequest = CloseRequest(adminKey: string) | ExtendRequest(adminKey: string, extendMinutes: Option<int>)

  /**
   * `handleAdminAction`, up to the request: an empty key stops both actions;
   * an extend is also stopped by an empty minutes field or one whose value
   * is not positive.
   */
  function AdminRequestFor(action: AdminAction, adminKey: string, field: MinutesField): (r: Result<AdminRequest, ClientError>)
    ensures adminKey == "" ==> r == Err(MissingAdminKey)
    ensures adminKey != "" && action == CloseAction ==> r == Ok(CloseRequest(adminKey))
    ensures adminKey != "" && action == ExtendAction ==>
      if field.EmptyField? || (field.Numeric? && field.value <= 0.0)
      then r == Err(InvalidExtendMinutes)
      else r == Ok(ExtendRequest(adminKey, SentMinutes(field)))
  {
    if adminKey == "" then Err(MissingAdminKey)
    else match action
      case CloseAction => Ok(CloseRequest(adminKey))
      case ExtendAction =>
        if field.EmptyField? || (field.Numeric? && field.value <= 0.0) then Err(InvalidExtendMinutes)
        else Ok(ExtendRequest(adminKey, SentMinutes(field)))
  }

  /**
   * An extend request the page lets through moves the deadline of the poll
   * later (or sets one in the future) once the server accepts the key
   * exactly when the field holds at least one minute. A fraction of a minute
   * passes the check but is sent as 0, which leaves the deadline as it was.
   */
  lemma ClientExtendMovesDeadline(adminKey: string, field: MinutesField, expiresAt: Option<int>, now: int)
    requires AdminRequestFor(ExtendAction, adminKey, field).Ok?
    ensures var req := AdminRequestFor(ExtendAction, adminKey, field).value;
      var e := ExtendedExpiry(expiresAt, now, req.extendMinutes);
      && (field.Numeric? && field.value >= 1.0 ==>
            e.Some? && e.value > (if expiresAt.Some? then expiresAt.value else now))
      && (!(field.Numeric? && field.value >= 1.0) ==> e == expiresAt)
  {
  }

  /** Half a minute passes the page's check, yet the poll keeps its deadline. */
  lemma HalfMinuteExtendKeepsDeadline(deadline: int, now: int)
    ensures AdminRequestFor(ExtendAction, "key", Numeric(0.5)) == Ok(ExtendRequest("key", Some(0)))
    ensures ExtendedExpiry(Some(deadline), now, Some(0)) == Some(deadline)
  {
  }
}
