# VoteSphere poll engine, modelled in Dafny

VoteSphere lets anyone create a timed multiple-choice poll, vote on it
anonymously and watch the tally change live. This project models three
parts of it:

- **The backend poll state machine** (`backend/index.js`). A store maps
  poll ids to poll documents. Its five route handlers are methods of the
  class `Server.PollService`: create, get, vote, admin close and admin
  extend. Each method loads one document, runs the handler's guards in the
  handler's order, changes one or two fields, stores the document back, and
  may emit one socket event. Socket rooms and emitted events are the class
  `Broadcast.Hub`. It holds a room map (poll id to a set of socket ids) and
  an append-only log. Each logged event records the members of its room at
  the moment it was sent.
- **The poll-creation form** (`frontend/src/pages/CreatePoll.jsx`). This
  covers option-list editing, the submit checks and the submit-button
  condition. They are pure functions in `CreatePollForm`.
- **The poll page fragments** (`frontend/src/pages/Pollpage.jsx`). This
  covers the countdown arithmetic and its label, the two socket-event
  merges, the `votedPolls` marker map, and the checks made before a vote or
  an admin request is sent. They are pure functions in `PollPage`.

Files: `wrappers.dfy` (Option, Result), `polls.dfy` (the poll document and
the pure helpers of the handlers), `broadcast.dfy` (rooms and the event
log), `server.dfy` (the store and its handlers), `create_poll.dfy`,
`poll_page.dfy`.

Current time is an integer-millisecond parameter `now`. Three values are
parameters too:

- the admin key, which the source draws from `Math.random`;
- the new document id, which it gets from the store (the caller supplies an
  unused id);
- the option index, a plain `int`.

A duration is an `Option<int>`. `None` stands for a missing or unparsable
value.

The store invariant `Valid()` holds before and after every handler. It says
that every poll has at least two options, one counter per option, and no
negative counter. The server keeps it only for create requests whose
`options` is an array of strings; the model's requests have no other kind
(see "## Left out"). Every handler also ensures `Evolves(old(polls), polls)`:

- no poll disappears;
- question, options, creation time and admin key never change;
- counters only grow;
- a poll that is inactive stays inactive.

No path of the code sets `isActive` back to true. `SuccessorTotals` turns
this into "the total never decreases". `EvolvesTransitive` extends it to
any run of requests.

The client methods go through two sample runs using only the handlers'
contracts. The first run starts in `TallyScenario` and continues through
`FirstVotes`, `TallyScenarioContinued` and `ExpiryScenario`. Each method
calls the next, so the run is checked from creation to the end. A one-minute
poll gets three votes for option 0 and one for option 1, giving tally
`[3, 1]` with total 4. The first vote after the deadline is refused. The
second run is `ExtendWithoutDeadlineScenario`: a poll with no deadline,
extended by ten minutes, gets `now + 10` minutes.

### Behaviour worth knowing

- A vote on a poll that is past its deadline but still marked active is
  answered `Expired`, not `Inactive`. The poll is marked inactive and later
  votes get `Inactive` (`backend/index.js:136-145`).
- Extend adds the minutes to the old deadline, not to `max(old, now)`. A
  poll whose deadline passed long ago can still be expired right after an
  extension (`Polls.ExtendOfLongExpiredPollStaysExpired`).
- Extend never reactivates a poll, including one that lazy expiry marked
  inactive. Once a get or a vote has seen the deadline pass, the poll stays
  closed whatever the new deadline (`ExpiryScenario`).
- The fetched document has no `totalVotes` field. The page holds no total
  until the first `voteUpdate` event arrives (`PollPage.Fetched`).
- Get returns the whole document, admin key included.
- The server does not check option texts, and it ignores a missing or
  non-positive duration instead of rejecting it.
- Closing a poll that is already closed succeeds again and emits another
  status event.
- The page checks the extend field by its numeric value but sends
  `parseInt` of it. Half a minute passes the check and is sent as 0. The
  server then leaves the deadline alone, although the page reports the
  extension
  (`PollPage.ClientExtendMovesDeadline`,
  `PollPage.HalfMinuteExtendKeepsDeadline`;
  `frontend/src/pages/Pollpage.jsx:148-157`).
- The page has one socket for all polls it shows, and the server never
  takes a socket out of a room. The `voteUpdate` payload names no poll. So
  after moving from poll A to poll B in one tab, a vote on A still reaches
  the page, and A's tally replaces B's on screen
  (`PollPage.StaleTallyReachesNextPoll`).

## Model

| member | source | states |
|---|---|---|
| `Polls.Sum` | backend/index.js:157 | the total of a tally, added left to right from 0 |
| `Polls.SumBump` | backend/index.js:151-157 | adding one to a single counter adds exactly one to the left-to-right total the handler reports |
| `Polls.SumMonotone` | backend/index.js:151-157 | a tally that grows pointwise has a total that does not decrease |
| `Polls.SumNonNegative` | backend/index.js:157 | a tally of non-negative counters has a non-negative total |
| `Polls.SumZeros` | backend/index.js:90 | the fresh all-zero tally totals 0 |
| `Polls.IsExpired` | backend/index.js:115 | a poll counts as expired when it has a deadline and `now` is strictly past it |
| `Polls.Expire` | backend/index.js:115-118 | after lazy expiry the poll is active iff it was active and the deadline is not strictly past; no other field changes |
| `Polls.ExpiryFor` | backend/index.js:82-85 | a deadline is set iff a positive duration is given, and then it is `now` plus that many minutes, which is later than `now` |
| `Polls.ExtendedExpiry` | backend/index.js:204-209 | a non-positive or missing duration leaves the deadline as it was; a positive one sets the old deadline (or `now` if unset) plus that many minutes |
| `Polls.ExtendPostpones` | backend/index.js:204-209 | extending never makes a poll expire earlier: if it is expired at some time afterwards it was expired then before; an unset deadline becomes one not yet passed; a set deadline moves strictly later |
| `Polls.ExtendOfLongExpiredPollStaysExpired` | backend/index.js:205-207 | extending a deadline that passed long ago adds to the old deadline, so the poll can still be expired at the moment of extension |
| `Polls.CreateRequestValid` | backend/index.js:74 | a create request passes when it has a non-empty question and an options list of at least two |
| `Polls.NewPoll` | backend/index.js:87-93 | the created document is well formed and active, has the given question, options, key and creation time, all counters 0 (total 0), and the deadline chosen from the duration |
| `Polls.Authorized` | backend/index.js:178-180 | an admin request is authorised exactly when it carries the stored key |
| `Broadcast.Members` | backend/index.js:228-231 | the members of a room, none for a room nobody joined |
| `Broadcast.Joined` | backend/index.js:228-231 | joining adds the socket to the named room and leaves every other room's members unchanged |
| `Broadcast.JoinIdempotent` | backend/index.js:228-231 | joining the same room twice is the same as joining once |
| `Broadcast.Inbox` | backend/index.js:155-158 | what a socket received from a room: the payloads of the logged events sent to that room while it was a member, in order; nothing when no logged event went to that room with the socket among its recipients |
| `Broadcast.InboxAfterEmit` | backend/index.js:155-158 | sending one event appends its payload to the inbox of every member of its room and to no other inbox, so each socket sees a room's events in sending order |
| `Broadcast.Hub.constructor` | backend/index.js:15-20 | the hub starts with no rooms and an empty log |
| `Broadcast.Hub.JoinPoll` | backend/index.js:228-231 | the room map becomes `Joined(old rooms, pollId, socket)`; the log is unchanged |
| `Broadcast.Hub.Emit` | backend/index.js:155-158 | exactly one event is appended, addressed to the room and carrying that room's current members; rooms are unchanged |
| `Server.EvolvesTransitive` | backend/index.js:109-216 | the allowed evolution of the store composes across requests |
| `Server.SuccessorTotals` | backend/index.js:151-152 | along an allowed evolution a poll's total never decreases and an inactive poll is never reactivated |
| `Server.BumpSuccessor` | backend/index.js:151 | counting one vote keeps a poll well formed and changes nothing but one counter, which grows |
| `Server.PollService.constructor` | backend/index.js:50-60 | the store starts empty and valid |
| `Server.PollService.Create` | backend/index.js:70-101 | a missing or empty question, missing options or fewer than two options give BadRequest and store nothing; otherwise the new id maps to `NewPoll(...)` and the id and key are returned |
| `Server.PollService.Get` | backend/index.js:109-120 | an unknown id gives NotFound with no change; otherwise the lazily expired document is stored and returned whole |
| `Server.PollService.Vote` | backend/index.js:128-163 | guards in order: NotFound, Inactive, Expired (which also clears `isActive`), InvalidOption; no rejection changes any tally or the log; success adds one to exactly the chosen counter (total +1), answers the new tally and total, and logs one `voteUpdate` to room `id` with the same pair |
| `Server.PollService.CountVote` | backend/index.js:151-163 | the success path of a vote: one counter grows by one, the store keeps its invariant, one `voteUpdate` event carrying the new tally and its total goes to the poll's room |
| `Server.PollService.Close` | backend/index.js:171-186 | NotFound, then Forbidden on a wrong or missing key, both with no change and no event; with the key `isActive` becomes false and one `pollStatusUpdate{isActive:false}` is logged to the room; repeating it leaves the store the same |
| `Server.PollService.Extend` | backend/index.js:193-216 | NotFound, then Forbidden, both with no change; with the key the deadline becomes `ExtendedExpiry(...)`, which is returned, and `isActive` and the tally are untouched |
| `CreatePollForm.IsBlank` | frontend/src/pages/CreatePoll.jsx:35-39 | a text is blank when `trim` leaves nothing of it, that is, when every character is ECMAScript white space or a line terminator |
| `CreatePollForm.EditOption` | frontend/src/pages/CreatePoll.jsx:23-27 | the edited index holds the new text; length and every other entry are unchanged |
| `CreatePollForm.AddOption` | frontend/src/pages/CreatePoll.jsx:29 | exactly one empty entry is appended; the existing entries are unchanged |
| `CreatePollForm.DropIndex` | frontend/src/pages/CreatePoll.jsx:32 | the index filter removes exactly the entry at an in-range index, keeping the others in order, and keeps everything otherwise |
| `CreatePollForm.RemoveOption` | frontend/src/pages/CreatePoll.jsx:30-32 | with more than two entries exactly the entry at the index is removed; with two or fewer the list is unchanged; the result never has fewer than two entries unless the list was left unchanged |
| `CreatePollForm.RemoveAddedOption` | frontend/src/pages/CreatePoll.jsx:29-32 | removing the entry just added restores the list |
| `CreatePollForm.ApplyEdit` | frontend/src/pages/CreatePoll.jsx:23-32 | one add, remove or change, as the three handlers do; a list of at least two fields keeps at least two |
| `CreatePollForm.EditsKeepTwoOptions` | frontend/src/pages/CreatePoll.jsx:16-32 | starting from at least two entries (the form starts with two), no sequence of adds, removes and edits leaves fewer than two |
| `CreatePollForm.Submit` | frontend/src/pages/CreatePoll.jsx:34-55 | blank question, then any blank option, then a missing or non-positive duration stop the submit, each exactly when the earlier checks pass; otherwise the request carries the question, the options and the parsed positive minutes |
| `CreatePollForm.SubmittedFormIsAccepted` | frontend/src/pages/CreatePoll.jsx:44-55 | a request the form submits from options it built passes the server's create check, and the server gives the poll a deadline |
| `CreatePollForm.CountFilled` | frontend/src/pages/CreatePoll.jsx:163 | the count is the number of indices whose field is not blank; it equals the number of options iff no option is blank |
| `CreatePollForm.TwoFilled` | frontend/src/pages/CreatePoll.jsx:163 | the count is at least two exactly when two different fields are filled in |
| `CreatePollForm.SubmitDisabled` | frontend/src/pages/CreatePoll.jsx:160-165 | the button is disabled while loading, with a blank question, with fewer than two filled fields, or with an empty time field |
| `CreatePollForm.SubmittableIsEnabled` | frontend/src/pages/CreatePoll.jsx:160-165 | a form that would be submitted, with at least two options, has its button enabled while not loading; the time field is non-empty because its parsed minutes are present |
| `CreatePollForm.EnabledButRefused` | frontend/src/pages/CreatePoll.jsx:160-165 | the button is enabled with two filled options and a third blank one, and the submit then refuses with MissingOption |
| `PollPage.SplitBounds` | frontend/src/pages/Pollpage.jsx:62-64 | for a positive difference the floored minutes and seconds are below 60 and the hours, minutes and seconds account for the difference to within one second |
| `PollPage.Decompose` | frontend/src/pages/Pollpage.jsx:54-64 | "Expired" exactly when the difference is not positive; otherwise minutes and seconds below 60 and `h*3600000 + m*60000 + s*1000 <= diff < that + 1000` |
| `PollPage.DecomposeUnique` | frontend/src/pages/Pollpage.jsx:62-64 | any hours, minutes and seconds meeting those bounds for a positive difference are the ones the countdown computes |
| `PollPage.NatToString` | frontend/src/pages/Pollpage.jsx:66-70 | a number prints as a non-empty string of decimal digits that reads back as the number, with a leading zero only for 0 |
| `PollPage.Label` | frontend/src/pages/Pollpage.jsx:56-70 | the label is `Expired` exactly when no time is left; otherwise it is `<h>h <m>m <s>s`, without the hours part when there are none, and ends in `s` |
| `PollPage.HoursShownOnlyWhenPositive` | frontend/src/pages/Pollpage.jsx:66-70 | the label contains an hours part exactly when time remains and at least one whole hour is left |
| `PollPage.Fetched` | frontend/src/pages/Pollpage.jsx:80-81 | the page holds every field of the fetched document (question, options, tally, creation time, deadline, admin key, activity) and no total |
| `PollPage.OnVoteUpdate` | frontend/src/pages/Pollpage.jsx:93-95 | no poll stays no poll; otherwise the tally and total take the event's values and every other field is kept |
| `PollPage.OnStatusUpdate` | frontend/src/pages/Pollpage.jsx:97-99 | no poll stays no poll; otherwise `isActive` takes the event's value and every other field is kept |
| `PollPage.UpdatesCommute` | frontend/src/pages/Pollpage.jsx:93-99 | the two merges touch disjoint fields, so their order does not matter |
| `PollPage.UpdatesIdempotent` | frontend/src/pages/Pollpage.jsx:93-99 | applying the same event twice is the same as once |
| `PollPage.LiveTallyMatchesServer` | frontend/src/pages/Pollpage.jsx:93-95 | after the server's vote event a fetched page shows the server's tally and its true total, and every other field is the fetched document's |
| `PollPage.StaleTallyReachesNextPoll` | frontend/src/pages/Pollpage.jsx:23-99 | a socket that joined poll `a` and then poll `b` still receives what is emitted to `a`, and the handler puts that tally on whatever poll is shown |
| `PollPage.HasVoted` | frontend/src/pages/Pollpage.jsx:41-44 | the page starts as voted exactly when the poll's marker is present and true |
| `PollPage.MarkVoted` | frontend/src/pages/Pollpage.jsx:120-122 | the poll's marker is set to true; every other entry is unchanged |
| `PollPage.MarkedPollCountsAsVoted` | frontend/src/pages/Pollpage.jsx:41-44 | after marking, the page starts as voted for that poll, and as before for every other poll |
| `PollPage.AfterVote` | frontend/src/pages/Pollpage.jsx:113-124 | a successful vote marks the poll; a failed one leaves the markers unchanged |
| `PollPage.VoteRequest` | frontend/src/pages/Pollpage.jsx:107-117 | no selection gives an error and no request; otherwise the selected index is sent |
| `PollPage.SentMinutes` | frontend/src/pages/Pollpage.jsx:155 | a non-negative number is sent as its whole part, at most it and less than one below it; the empty field is sent as `null` |
| `PollPage.AdminRequestFor` | frontend/src/pages/Pollpage.jsx:137-156 | an empty key stops both actions; close then sends the key; extend is stopped by an empty field or a value that is not positive, and otherwise sends the key and `parseInt` of the field |
| `PollPage.ClientExtendMovesDeadline` | frontend/src/pages/Pollpage.jsx:147-156 | of the extends the page lets through, those whose field holds at least one minute move the deadline strictly later than the old one (or than `now` when there was none); all others leave the deadline as it was |
| `PollPage.HalfMinuteExtendKeepsDeadline` | frontend/src/pages/Pollpage.jsx:148-156 | a field of 0.5 passes the page's check and is sent as 0, which leaves the deadline unchanged |

## Left out

- Express routing, CORS, environment and database connection setup, the
  health endpoint, the error and not-found middleware, and server start-up
  (`backend/index.js:1-14`, `21-48`, `61-67`, `239-253`). They are I/O and configuration.
- The `500` answers of every handler. They come from exceptions the model
  does not have: storage failures, a malformed id rejected by the store's
  id cast, and a deadline outside the range of an ECMAScript `Date`
  (more than 8.64e15 ms from the epoch). For such a deadline the store
  rejects the document on save. `Server.PollService.Create` and
  `Server.PollService.Extend` instead store `now` (or the old deadline)
  plus any number of minutes and answer `Ok`
  (`backend/index.js:84`, `95`, `205-210`).
- Id spelling. The store's id cast takes an upper-case hexadecimal id for the
  same document, while the socket room (`backend/index.js:155`, `229`) is
  named by the raw string. The model names both by one string, so it does
  not show that a page opened with an upper-case id receives no live
  updates.
- Concurrency. The handlers read, change and save a document with no lock
  and no atomic increment, so two concurrent votes can lose an increment.
  The model runs requests one after another and claims no atomicity across
  requests. The "N concurrent votes add N" property is not modelled.
- Socket delivery guarantees, and the removal of a socket from its rooms on
  disconnect. Both belong to the socket library. The hub keeps only the
  room sets and the log, and a leaving socket is never removed.
- The randomness of the admin key, the store's id generation and the
  clock. They are parameters.
- JavaScript loose typing: a non-integer, missing or non-numeric option
  index or duration on the server and in the creation form; a non-string
  question; an `options` value that is not an array of strings. A string
  or a number passes the create guard (`backend/index.js:74`), and the
  schema stores it as a one-option poll (`52`). For a string, the tally
  gets one counter per character (`90`), so `"ab"` gives one option and two
  counters. Indices are `int`, durations are `Option<int>` and options are
  `Option<seq<string>>`.
- PollPage.SentMinutes: the extend field is empty or a number in plain
  decimal notation. Exponent notation, which the number input accepts and
  of which `parseInt` reads only the prefix, is not modelled. A field such as `.5` is
  sent as 0 here, where `parseInt` gives `NaN`; both leave the deadline
  alone on the server.
- Floating point. The countdown uses integer division. `Math.floor` of a
  float quotient agrees with it for realistic differences. The percentage
  labels of the chart are not modelled.
- Rendering, the chart, the clipboard, navigation, the `setInterval` timer
  lifecycle, the loading flags, the text of the error messages, the page's
  re-fetch after an extend (that is the get handler), and the JSON encoding
  of local storage. The marker is a `map<string, bool>`.
- `frontend/src/pages/Home.jsx` and `frontend/src/App.jsx`. They hold only
  navigation and routing.
- CreatePollForm.ApplyEdit: a change at an index out of range is taken as a
  no-op. The form only renders fields for existing indices, so it never
  issues one.
- Server.PollService.Create: requires an unused id, because the store
  guarantees fresh ids.
