/** The sliding-window limiter on chat requests (src/redis_client.py): one pruned, expiring sorted
    set per user, refined against the full history of accepted requests. */
module RateLimiter {

  /** What the script answers. */
  datatype Reply = Reply(allowed: bool, count: int)

  /** The sorted set (member to score) and when its key expires; an absent key is an empty set. */
  datatype Store = Store(entries: map<nat, int>, expireAt: int)

  const EMPTY := Store(map[], 0)
  const EXPIRY_MARGIN := 60000

  function Pruned(entries: map<nat, int>, upTo: int): map<nat, int> {
    map m | m in entries && entries[m] > upTo :: entries[m]
  }

  /** The script on the stored set. */
  function Checked(s: Store, now: int, member: nat, window: int, limit: int): (Store, Reply) {
    var live := Pruned(s.entries, now - window);
    if |live| >= limit then (s.(entries := live), Reply(false, |live|))
    else (Store(live[member := now], now + window + EXPIRY_MARGIN), Reply(true, |live| + 1))
  }

  class RateLimitKey {
    var entries: map<nat, int>
    var expireAt: int

    ghost function Contents(): Store
      reads this
    {
      Store(entries, expireAt)
    }

    constructor ()
      ensures Contents() == EMPTY
    {
      entries, expireAt := map[], 0;
    }

    method Check(now: int, member: nat, window: int, limit: int) returns (reply: Reply)
      modifies this
      ensures (Contents(), reply) == Checked(old(Contents()), now, member, window, limit)
    {
      entries := Pruned(entries, now - window);
      var count := |entries|;
      if count >= limit {
        return Reply(false, count);
      }
      entries := entries[member := now];
      expireAt := now + window + EXPIRY_MARGIN;
      reply := Reply(true, count + 1);
    }

    /** Redis drops the key. */
    method Expire()
      modifies this
      ensures Contents() == old(Contents()).(entries := map[])
    {
      entries := map[];
    }
  }

  // ---------------------------------------------------------------------
  // Runs
  // ---------------------------------------------------------------------

  /** A request at a server time, with its random member name, or the key expiring. */
  datatype Event = Request(now: int, member: nat) | Expiry(now: int)

  function After(events: seq<Event>, k: nat, window: int, limit: int): Store
    requires k <= |events|
  {
    if k == 0 then EMPTY
    else
      var s := After(events, k - 1, window, limit);
      match events[k - 1]
      case Request(now, member) => Checked(s, now, member, window, limit).0
      case Expiry(_) => s.(entries := map[])
  }

  function ReplyAt(events: seq<Event>, k: nat, window: int, limit: int): Reply
    requires k < |events| && events[k].Request?
  {
    Checked(After(events, k, window, limit), events[k].now, events[k].member, window, limit).1
  }

  predicate InOrder(a: Event, b: Event) {
    a.now <= b.now && (a.Request? && b.Request? ==> a.member != b.member)
  }

  predicate Follows(events: seq<Event>, k: nat)
    requires k < |events|
  {
    forall i {:trigger InOrder(events[i], events[k])} :: 0 <= i < k ==> InOrder(events[i], events[k])
  }

  predicate Past(events: seq<Event>, k: nat, now: int)
    requires k <= |events|
  {
    forall i :: 0 <= i < k ==> events[i].now <= now
  }

  lemma FollowsIsPast(events: seq<Event>, k: nat)
    requires k < |events| && Follows(events, k)
    ensures Past(events, k, events[k].now)
  {
    assert forall i :: 0 <= i < k ==> InOrder(events[i], events[k]);
  }

  /** The clock never goes back, member names never repeat, and the key expires only once its time
      to live is over; it may also live on after that. */
  predicate IsRun(events: seq<Event>, window: int, limit: int) {
    && (forall k :: 0 <= k < |events| ==> Follows(events, k))
    && (forall i :: 0 <= i < |events| && events[i].Expiry? ==>
          events[i].now >= After(events, i, window, limit).expireAt)
  }

  // ---------------------------------------------------------------------
  // The limiter that forgets nothing
  // ---------------------------------------------------------------------

  datatype Accept = Accept(time: int, member: nat)

  /** How many of the first n accepted requests came in (after, upTo]. */
  function AcceptsIn(history: seq<Accept>, n: nat, after: int, upTo: int): nat
    requires n <= |history|
  {
    if n == 0 then 0
    else AcceptsIn(history, n - 1, after, upTo) + if after < history[n - 1].time <= upTo then 1 else 0
  }

  function IdealReply(history: seq<Accept>, now: int, window: int, limit: int): Reply {
    var count := AcceptsIn(history, |history|, now - window, now);
    if count < limit then Reply(true, count + 1) else Reply(false, count)
  }

  /** Every request the ideal limiter accepts in the first k events. */
  function History(events: seq<Event>, k: nat, window: int, limit: int): seq<Accept>
    requires k <= |events|
  {
    if k == 0 then []
    else
      var h := History(events, k - 1, window, limit);
      match events[k - 1]
      case Request(now, member) =>
        if IdealReply(h, now, window, limit).allowed then h + [Accept(now, member)] else h
      case Expiry(_) => h
  }

  // ---------------------------------------------------------------------
  // Refinement
  // ---------------------------------------------------------------------

  predicate Differ(a: Accept, b: Accept) {
    a.member != b.member
  }

  predicate Distinct(h: seq<Accept>) {
    forall i, j {:trigger Differ(h[i], h[j])} :: 0 <= i < j < |h| ==> Differ(h[i], h[j])
  }

  /** Each accept is of a request before event k, and no two share a member. */
  predicate FromRequests(h: seq<Accept>, events: seq<Event>, k: nat)
    requires k <= |events|
  {
    && (forall i :: 0 <= i < |h| ==> Request(h[i].time, h[i].member) in events[..k])
    && Distinct(h)
  }

  /** The set holds accepts only, and every one that is still inside the window at `now`. */
  predicate Holds(entries: map<nat, int>, h: seq<Accept>, now: int, window: int) {
    && (forall m :: m in entries ==> Accept(entries[m], m) in h)
    && (forall i :: 0 <= i < |h| && h[i].time > now - window ==>
          h[i].member in entries && entries[h[i].member] == h[i].time)
  }

  /** No entry is within the margin of leaving the window when the key may expire. */
  predicate OutlivesEntries(s: Store, window: int) {
    forall m :: m in s.entries ==> s.entries[m] + window + EXPIRY_MARGIN <= s.expireAt
  }

  ghost predicate Inv(events: seq<Event>, k: nat, window: int, limit: int)
    requires k <= |events|
  {
    var s, h := After(events, k, window, limit), History(events, k, window, limit);
    && FromRequests(h, events, k)
    && OutlivesEntries(s, window)
    && forall now {:trigger Holds(s.entries, h, now, window)} ::
         Past(events, k, now) ==> Holds(s.entries, h, now, window)
  }

  function MembersIn(h: seq<Accept>, n: nat, after: int, upTo: int): set<nat>
    requires n <= |h|
  {
    if n == 0 then {}
    else MembersIn(h, n - 1, after, upTo) + if after < h[n - 1].time <= upTo then {h[n - 1].member} else {}
  }

  lemma {:induction false} MemberHasAccept(h: seq<Accept>, n: nat, after: int, upTo: int, m: nat) returns (i: nat)
    requires n <= |h| && m in MembersIn(h, n, after, upTo)
    ensures i < n && h[i].member == m && after < h[i].time <= upTo
  {
    i := n - 1;
    if !(h[i].member == m && after < h[i].time <= upTo) {
      i := MemberHasAccept(h, n - 1, after, upTo, m);
    }
  }

  lemma {:induction false} AcceptHasMember(h: seq<Accept>, n: nat, after: int, upTo: int, i: nat)
    requires i < n <= |h| && after < h[i].time <= upTo
    ensures h[i].member in MembersIn(h, n, after, upTo)
  {
    if i < n - 1 {
      AcceptHasMember(h, n - 1, after, upTo, i);
    }
  }

  lemma {:induction false} CountIsSize(h: seq<Accept>, n: nat, after: int, upTo: int)
    requires n <= |h| && Distinct(h)
    ensures |MembersIn(h, n, after, upTo)| == AcceptsIn(h, n, after, upTo)
  {
    if n > 0 {
      CountIsSize(h, n - 1, after, upTo);
      assert forall i :: 0 <= i < n - 1 ==> Differ(h[i], h[n - 1]);
      if h[n - 1].member in MembersIn(h, n - 1, after, upTo) {
        var i := MemberHasAccept(h, n - 1, after, upTo, h[n - 1].member);
        assert false;
      }
    }
  }

  /** After pruning, the set is exactly the accepts inside the window. */
  lemma LiveAreMembers(entries: map<nat, int>, h: seq<Accept>, now: int, window: int)
    requires Holds(entries, h, now, window)
    requires forall i :: 0 <= i < |h| ==> h[i].time <= now
    ensures Pruned(entries, now - window).Keys == MembersIn(h, |h|, now - window, now)
  {
    var live := Pruned(entries, now - window);
    var members := MembersIn(h, |h|, now - window, now);
    forall m | m in live ensures m in members {
      var i :| 0 <= i < |h| && h[i] == Accept(entries[m], m);
      AcceptHasMember(h, |h|, now - window, now, i);
    }
    forall m | m in members ensures m in live {
      var i := MemberHasAccept(h, |h|, now - window, now, m);
    }
  }

  lemma PrunedIsWindow(entries: map<nat, int>, h: seq<Accept>, now: int, window: int)
    requires Holds(entries, h, now, window)
    requires Distinct(h)
    requires forall i :: 0 <= i < |h| ==> h[i].time <= now
    ensures |Pruned(entries, now - window)| == AcceptsIn(h, |h|, now - window, now)
  {
    LiveAreMembers(entries, h, now, window);
    var live := Pruned(entries, now - window);
    assert |live| == |live.Keys|;
    CountIsSize(h, |h|, now - window, now);
  }

  lemma HistoryIsPast(events: seq<Event>, k: nat, now: int, window: int, limit: int)
    requires k <= |events| && Inv(events, k, window, limit)
    requires Past(events, k, now)
    ensures forall i :: 0 <= i < |History(events, k, window, limit)| ==> History(events, k, window, limit)[i].time <= now
  {
    var h := History(events, k, window, limit);
    forall i | 0 <= i < |h| ensures h[i].time <= now {
      var j :| 0 <= j < k && events[j] == Request(h[i].time, h[i].member);
    }
  }

  /** The script answers as the ideal limiter does. */
  lemma RepliesAgree(events: seq<Event>, k: nat, window: int, limit: int)
    requires k < |events| && events[k].Request? && Inv(events, k, window, limit)
    requires Past(events, k, events[k].now)
    ensures ReplyAt(events, k, window, limit) == IdealReply(History(events, k, window, limit), events[k].now, window, limit)
  {
    HistoryIsPast(events, k, events[k].now, window, limit);
    PrunedIsWindow(After(events, k, window, limit).entries, History(events, k, window, limit), events[k].now, window);
  }

  lemma PruningKeepsHolds(entries: map<nat, int>, h: seq<Accept>, now: int, later: int, window: int)
    requires Holds(entries, h, later, window) && now <= later
    ensures Holds(Pruned(entries, now - window), h, later, window)
  {
  }

  lemma AcceptKeepsHolds(entries: map<nat, int>, h: seq<Accept>, a: Accept, later: int, window: int)
    requires Holds(entries, h, later, window)
    requires forall i :: 0 <= i < |h| ==> h[i].member != a.member
    ensures Holds(entries[a.member := a.time], h + [a], later, window)
  {
    var entries', h' := entries[a.member := a.time], h + [a];
    assert h'[|h|] == a;
    forall m | m in entries' ensures Accept(entries'[m], m) in h' {
      if m != a.member {
        var i :| 0 <= i < |h| && h[i] == Accept(entries[m], m);
        assert h'[i] == Accept(entries'[m], m);
      }
    }
  }

  lemma AcceptKeepsFromRequests(h: seq<Accept>, events: seq<Event>, k: nat)
    requires k < |events| && FromRequests(h, events, k) && events[k].Request?
    requires Follows(events, k)
    ensures forall i :: 0 <= i < |h| ==> h[i].member != events[k].member
    ensures FromRequests(h, events, k + 1)
    ensures FromRequests(h + [Accept(events[k].now, events[k].member)], events, k + 1)
  {
    assert events[..k + 1] == events[..k] + [events[k]];
    forall i | 0 <= i < |h| ensures h[i].member != events[k].member {
      var j :| 0 <= j < k && events[j] == Request(h[i].time, h[i].member);
      assert InOrder(events[j], events[k]);
    }
  }

  lemma RequestKeepsInvariant(events: seq<Event>, k: nat, window: int, limit: int)
    requires k < |events| && events[k].Request? && Inv(events, k, window, limit)
    requires Follows(events, k)
    ensures Inv(events, k + 1, window, limit)
  {
    var s, h := After(events, k, window, limit), History(events, k, window, limit);
    var s', h' := After(events, k + 1, window, limit), History(events, k + 1, window, limit);
    var now, member := events[k].now, events[k].member;
    FollowsIsPast(events, k);
    RepliesAgree(events, k, window, limit);
    AcceptKeepsFromRequests(h, events, k);
    RequestKeepsExpiry(events, k, window, limit);
    forall later | Past(events, k + 1, later)
      ensures Holds(s'.entries, h', later, window)
    {
      assert Past(events, k, later) && events[k].now <= later;
      assert Holds(s.entries, h, later, window);
      PruningKeepsHolds(s.entries, h, now, later, window);
      AcceptKeepsHolds(Pruned(s.entries, now - window), h, Accept(now, member), later, window);
    }
  }

  lemma RequestKeepsExpiry(events: seq<Event>, k: nat, window: int, limit: int)
    requires k < |events| && events[k].Request? && Inv(events, k, window, limit)
    requires Past(events, k, events[k].now)
    ensures OutlivesEntries(After(events, k + 1, window, limit), window)
  {
    var s, h := After(events, k, window, limit), History(events, k, window, limit);
    HistoryIsPast(events, k, events[k].now, window, limit);
    assert Holds(s.entries, h, events[k].now, window);
    assert forall m :: m in s.entries ==> Accept(s.entries[m], m) in h && s.entries[m] <= events[k].now;
  }

  lemma ExpiryKeepsInvariant(events: seq<Event>, k: nat, window: int, limit: int)
    requires k < |events| && events[k].Expiry? && Inv(events, k, window, limit)
    requires Past(events, k, events[k].now)
    requires events[k].now >= After(events, k, window, limit).expireAt
    ensures Inv(events, k + 1, window, limit)
  {
    var s, h := After(events, k, window, limit), History(events, k, window, limit);
    assert events[..k + 1] == events[..k] + [events[k]];
    forall later | Past(events, k + 1, later)
      ensures Holds(map[], h, later, window)
    {
      assert Past(events, k, later) && events[k].now <= later;
      assert Holds(s.entries, h, later, window);
    }
  }

  lemma EventKeepsInvariant(events: seq<Event>, k: nat, window: int, limit: int)
    requires IsRun(events, window, limit) && k < |events| && Inv(events, k, window, limit)
    ensures Inv(events, k + 1, window, limit)
  {
    FollowsIsPast(events, k);
    if events[k].Request? {
      RequestKeepsInvariant(events, k, window, limit);
    } else {
      ExpiryKeepsInvariant(events, k, window, limit);
    }
  }

  lemma {:induction false} RunKeepsInvariant(events: seq<Event>, k: nat, window: int, limit: int)
    requires IsRun(events, window, limit) && k <= |events|
    ensures Inv(events, k, window, limit)
  {
    if k > 0 {
      RunKeepsInvariant(events, k - 1, window, limit);
      EventKeepsInvariant(events, k - 1, window, limit);
    }
  }

  lemma RunHistoryIsPast(events: seq<Event>, k: nat, window: int, limit: int)
    requires IsRun(events, window, limit) && k < |events|
    ensures var h := History(events, k, window, limit);
      forall i :: 0 <= i < |h| ==> h[i].time <= events[k].now
  {
    RunKeepsInvariant(events, k, window, limit);
    FollowsIsPast(events, k);
    HistoryIsPast(events, k, events[k].now, window, limit);
  }

  /** In every run each reply, decision and count, is what the full history of accepted requests
      calls for: allowed exactly when fewer than `limit` came in the last `window` ms. */
  lemma RefinesFullHistory(events: seq<Event>, k: nat, window: int, limit: int)
    requires IsRun(events, window, limit) && k < |events| && events[k].Request?
    ensures ReplyAt(events, k, window, limit) == IdealReply(History(events, k, window, limit), events[k].now, window, limit)
  {
    RunKeepsInvariant(events, k, window, limit);
    FollowsIsPast(events, k);
    RepliesAgree(events, k, window, limit);
  }

  lemma {:induction false} CountGrowsWithRange(h: seq<Accept>, n: nat, after: int, upTo: int, after': int, upTo': int)
    requires n <= |h| && after' <= after && forall i :: 0 <= i < n && h[i].time <= upTo ==> h[i].time <= upTo'
    ensures AcceptsIn(h, n, after, upTo) <= AcceptsIn(h, n, after', upTo')
  {
    if n > 0 {
      CountGrowsWithRange(h, n - 1, after, upTo, after', upTo');
    }
  }

  lemma {:induction false} CountOfPrefix(h: seq<Accept>, h': seq<Accept>, n: nat, after: int, upTo: int)
    requires n <= |h| && n <= |h'| && forall i :: 0 <= i < n ==> h[i] == h'[i]
    ensures AcceptsIn(h, n, after, upTo) == AcceptsIn(h', n, after, upTo)
  {
    if n > 0 {
      CountOfPrefix(h, h', n - 1, after, upTo);
    }
  }

  lemma AcceptFitsWindow(h: seq<Accept>, a: Accept, after: int, window: int, limit: int)
    requires forall i :: 0 <= i < |h| ==> h[i].time <= a.time
    requires IdealReply(h, a.time, window, limit).allowed && after < a.time <= after + window
    ensures AcceptsIn(h + [a], |h| + 1, after, after + window) <= limit
  {
    CountOfPrefix(h, h + [a], |h|, after, after + window);
    CountGrowsWithRange(h, |h|, after, after + window, a.time - window, a.time);
  }

  /** Wherever a window of that length is laid over a run, it holds at most `limit` accepts. */
  lemma {:induction false} NoWindowExceedsLimit(events: seq<Event>, k: nat, after: int, window: int, limit: int)
    requires IsRun(events, window, limit) && k <= |events|
    ensures var h := History(events, k, window, limit);
      AcceptsIn(h, |h|, after, after + window) <= if limit > 0 then limit else 0
  {
    if k > 0 {
      var j := k - 1;
      assert j + 1 == k;
      NoWindowExceedsLimit(events, j, after, window, limit);
      var h, now := History(events, j, window, limit), events[j].now;
      if events[j].Request? && IdealReply(h, now, window, limit).allowed {
        var a := Accept(now, events[j].member);
        RunHistoryIsPast(events, j, window, limit);
        if after < now <= after + window {
          AcceptFitsWindow(h, a, after, window, limit);
        } else {
          CountOfPrefix(h, h + [a], |h|, after, after + window);
        }
      }
    }
  }

  /** When the key expires, each of its entries left the window at least a minute before. */
  lemma ExpiryDropsNothingLive(events: seq<Event>, k: nat, window: int, limit: int)
    requires IsRun(events, window, limit) && k < |events| && events[k].Expiry?
    ensures var entries := After(events, k, window, limit).entries;
      forall m :: m in entries ==> entries[m] <= events[k].now - window - 60000
  {
    RunKeepsInvariant(events, k, window, limit);
  }

  /** Which events are requests that the script allows. */
  function Decisions(events: seq<Event>, window: int, limit: int): (allowed: seq<bool>)
    ensures |allowed| == |events|
  {
    seq(|events|, i requires 0 <= i < |events| => events[i].Request? && ReplyAt(events, i, window, limit).allowed)
  }

  /** The first k of them that came in after `since`. */
  function AllowedSince(events: seq<Event>, allowed: seq<bool>, k: nat, since: int): set<nat>
    requires k <= |events| == |allowed|
  {
    set i: nat | i < k && allowed[i] && events[i].now > since
  }

  lemma AllowedNext(events: seq<Event>, allowed: seq<bool>, j: nat, k: nat, since: int)
    requires k == j + 1 <= |events| == |allowed|
    ensures |AllowedSince(events, allowed, k, since)|
         == |AllowedSince(events, allowed, j, since)| + if allowed[j] && events[j].now > since then 1 else 0
  {
    var before, after := AllowedSince(events, allowed, j, since), AllowedSince(events, allowed, k, since);
    assert after == if allowed[j] && events[j].now > since then before + {j} else before;
  }

  lemma HistoryNext(events: seq<Event>, j: nat, k: nat, since: int, upTo: int, window: int, limit: int)
    requires IsRun(events, window, limit) && k == j + 1 <= |events| && Past(events, k, upTo)
    ensures var h, h' := History(events, j, window, limit), History(events, k, window, limit);
      AcceptsIn(h', |h'|, since, upTo) == AcceptsIn(h, |h|, since, upTo)
        + if events[j].Request? && ReplyAt(events, j, window, limit).allowed && events[j].now > since then 1 else 0
  {
    var h := History(events, j, window, limit);
    if events[j].Request? {
      RefinesFullHistory(events, j, window, limit);
      AcceptAdds(h, Accept(events[j].now, events[j].member), since, upTo);
      HistoryWith(events, j, k, window, limit);
    }
  }

  lemma HistoryWith(events: seq<Event>, j: nat, k: nat, window: int, limit: int)
    requires k == j + 1 <= |events| && events[j].Request?
    ensures var h, e := History(events, j, window, limit), events[j];
      History(events, k, window, limit)
        == if IdealReply(h, e.now, window, limit).allowed then h + [Accept(e.now, e.member)] else h
  {
    assert k - 1 == j;
  }

  lemma AcceptAdds(h: seq<Accept>, a: Accept, since: int, upTo: int)
    requires a.time <= upTo
    ensures AcceptsIn(h + [a], |h| + 1, since, upTo) == AcceptsIn(h, |h|, since, upTo) + if a.time > since then 1 else 0
  {
    CountOfPrefix(h, h + [a], |h|, since, upTo);
    assert (h + [a])[|h|] == a;
  }

  lemma {:induction false} AllowedAreCounted(events: seq<Event>, allowed: seq<bool>, k: nat, since: int, upTo: int, window: int,
                                             limit: int)
    requires IsRun(events, window, limit) && k <= |events| && Past(events, k, upTo) && allowed == Decisions(events, window, limit)
    ensures var h := History(events, k, window, limit);
      AcceptsIn(h, |h|, since, upTo) == |AllowedSince(events, allowed, k, since)|
  {
    if k > 0 {
      var j := k - 1;
      AllowedAreCounted(events, allowed, j, since, upTo, window, limit);
      AllowedNext(events, allowed, j, k, since);
      HistoryNext(events, j, k, since, upTo, window, limit);
    }
  }

  lemma IdealCounts(h: seq<Accept>, n: nat, now: int, since: int, window: int, limit: int)
    requires since == now - window && AcceptsIn(h, |h|, since, now) == n
    ensures IdealReply(h, now, window, limit) == if n < limit then Reply(true, n + 1) else Reply(false, n)
  {
  }

  lemma ReplyCounts(events: seq<Event>, k: nat, n: nat, now: int, since: int, window: int, limit: int)
    requires IsRun(events, window, limit) && k < |events| && events[k].Request? && now == events[k].now && since == now - window
    requires var h := History(events, k, window, limit); AcceptsIn(h, |h|, since, now) == n
    ensures ReplyAt(events, k, window, limit) == if n < limit then Reply(true, n + 1) else Reply(false, n)
  {
    RefinesFullHistory(events, k, window, limit);
    IdealCounts(History(events, k, window, limit), n, now, since, window, limit);
  }

  /** In every run a request is allowed exactly when fewer than `limit` of the requests allowed before it came in
      during the last `window` ms, and the reply counts those, with the request itself if it is allowed. */
  lemma AllowedExactly(events: seq<Event>, k: nat, since: int, window: int, limit: int)
    requires IsRun(events, window, limit) && k < |events| && events[k].Request? && since == events[k].now - window
    ensures var n := |AllowedSince(events, Decisions(events, window, limit), k, since)|;
      ReplyAt(events, k, window, limit) == if n < limit then Reply(true, n + 1) else Reply(false, n)
  {
    var allowed := Decisions(events, window, limit);
    FollowsIsPast(events, k);
    AllowedAreCounted(events, allowed, k, since, events[k].now, window, limit);
    ReplyCounts(events, k, |AllowedSince(events, allowed, k, since)|, events[k].now, since, window, limit);
  }
}
