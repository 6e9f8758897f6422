/** The bounded per-client sliding-window limiter, against a count over the whole history of admissions. */
module RateLimiter {
  import opened Base

  datatype LimiterError = EmptyClientKey

  // ----- The simple form: count what was admitted in (now - window, now]

  function InWindow(times: seq<real>, now: real, window: real): nat {
    if times == [] then 0
    else (if now - window < times[0] <= now then 1 else 0) + InWindow(times[1..], now, window)
  }

  predicate Sorted(times: seq<real>) {
    forall i, j :: 0 <= i <= j < |times| ==> times[i] <= times[j]
  }

  function Ceil(x: real): int {
    -((-x).Floor)
  }

  lemma {:induction false} InWindowAppend(a: seq<real>, b: seq<real>, now: real, window: real)
    ensures InWindow(a + b, now, window) == InWindow(a, now, window) + InWindow(b, now, window)
  {
    if a == [] {
      assert a + b == b;
    } else {
      assert (a + b)[1..] == a[1..] + b;
      InWindowAppend(a[1..], b, now, window);
    }
  }

  /** Times that have left the window count nothing. */
  lemma {:induction false} InWindowOld(times: seq<real>, now: real, window: real)
    requires forall i :: 0 <= i < |times| ==> times[i] <= now - window
    ensures InWindow(times, now, window) == 0
  {
    if times != [] {
      InWindowOld(times[1..], now, window);
    }
  }

  lemma {:induction false} InWindowAll(times: seq<real>, now: real, window: real)
    requires forall i :: 0 <= i < |times| ==> now - window < times[i] <= now
    ensures InWindow(times, now, window) == |times|
  {
    if times != [] {
      InWindowAll(times[1..], now, window);
    }
  }

  lemma {:induction false} InWindowAtMost(times: seq<real>, now: real, window: real)
    ensures InWindow(times, now, window) <= |times|
  {
    if times != [] {
      InWindowAtMost(times[1..], now, window);
    }
  }

  /** A full, sorted deque stays full until its oldest entry leaves the window. */
  lemma FullUntilOldestLeaves(times: seq<real>, now: real, later: real, window: real)
    requires times != [] && Sorted(times) && now <= later
    requires forall i :: 0 <= i < |times| ==> times[i] <= now
    ensures InWindow(times, later, window) < |times| <==> times[0] <= later - window
  {
    if times[0] <= later - window {
      InWindowAtMost(times[1..], later, window);
    } else {
      InWindowAll(times, later, window);
    }
  }

  lemma CeilIsLeast(x: real, d: int)
    ensures d as real >= x <==> d >= Ceil(x)
  {
  }

  /** Whether a client with this history would be admitted if its next request came after `wait` seconds. */
  predicate WouldAdmit(history: seq<real>, now: real, wait: nat, window: real, limit: nat) {
    InWindow(history, now + wait as real, window) < limit
  }

  // ----- What one deque has to do with its client's history

  /** From now on the two sequences count the same in every window. */
  ghost predicate SameCounts(history: seq<real>, deque: seq<real>, now: real, window: real) {
    forall later: real :: now <= later ==> InWindow(history, later, window) == InWindow(deque, later, window)
  }

  /** An eviction takes what it cuts off out of the counts for one window, and no longer. */
  function ExactFrom(now: real, cut: Option<real>, window: real): real {
    if cut.None? || cut.value + window <= now then now else cut.value + window
  }

  /** The deque is sorted and short, and stands for its client's history once an eviction, if any, is a window ago. */
  ghost predicate ClientOk(history: seq<real>, deque: seq<real>, limit: nat, now: real, window: real,
                           cut: Option<real>) {
    && DequeOk(deque, now) && |deque| <= limit
    && (forall i :: 0 <= i < |history| ==> history[i] <= now)
    && SameCounts(history, deque, ExactFrom(now, cut, window), window)
  }

  ghost predicate DequeOk(deque: seq<real>, now: real) {
    Sorted(deque) && forall i :: 0 <= i < |deque| ==> deque[i] <= now
  }

  lemma TimePasses(history: seq<real>, deque: seq<real>, limit: nat, now: real, later: real, window: real,
                   cut: Option<real>)
    requires ClientOk(history, deque, limit, now, window, cut) && now <= later
    ensures ClientOk(history, deque, limit, later, window, cut)
  {
  }

  lemma ExpireOne(history: seq<real>, deque: seq<real>, now: real, window: real)
    requires SameCounts(history, deque, now, window) && DequeOk(deque, now)
    requires deque != [] && deque[0] <= now - window
    ensures SameCounts(history, deque[1..], now, window) && DequeOk(deque[1..], now)
  {
  }

  /** What an eviction cuts off has left every window that begins after it. */
  lemma CutOff(history: seq<real>, now: real, window: real)
    requires window > 0.0 && forall i :: 0 <= i < |history| ==> history[i] <= now
    ensures SameCounts(history, [], ExactFrom(now, Some(now), window), window)
  {
    forall later: real | now + window <= later ensures InWindow(history, later, window) == 0 {
      InWindowOld(history, later, window);
    }
  }

  lemma AppendBoth(history: seq<real>, deque: seq<real>, now: real, from: real, window: real)
    requires DequeOk(deque, now)
    ensures DequeOk(deque + [now], now)
    ensures SameCounts(history, deque, from, window) ==> SameCounts(history + [now], deque + [now], from, window)
  {
    forall later: real
      ensures InWindow(history + [now], later, window) == InWindow(history, later, window) + InWindow([now], later,
                                                                                                      window)
      ensures InWindow(deque + [now], later, window) == InWindow(deque, later, window) + InWindow([now], later, window)
    {
      InWindowAppend(history, [now], later, window);
      InWindowAppend(deque, [now], later, window);
    }
  }

  /** Once expired entries are gone, the deque counts exactly the admissions in the window. */
  lemma DequeCounts(history: seq<real>, deque: seq<real>, now: real, window: real)
    requires SameCounts(history, deque, now, window) && DequeOk(deque, now)
    requires forall i :: 0 <= i < |deque| ==> now - window < deque[i]
    ensures InWindow(history, now, window) == |deque|
  {
    InWindowAll(deque, now, window);
  }

  /** A refused client is admitted again exactly after the rounded-up rest of its oldest entry's window. */
  lemma RetryIsLeast(history: seq<real>, deque: seq<real>, now: real, window: real, wait: nat)
    requires SameCounts(history, deque, now, window) && DequeOk(deque, now)
    requires forall i :: 0 <= i < |deque| ==> now - window < deque[i]
    requires deque != []
    ensures WouldAdmit(history, now, wait, window, |deque|) <==> wait >= Max(1, Ceil(window - (now - deque[0])))
  {
    var later := now + wait as real;
    FullUntilOldestLeaves(deque, now, later, window);
    CeilIsLeast(window - (now - deque[0]), wait);
    CeilIsLeast(window - (now - deque[0]), 0);
  }

  ghost predicate OrderOk(order: seq<string>, events: map<string, seq<real>>) {
    && (forall i :: 0 <= i < |order| ==> order[i] in events)
    && (forall k :: k in events ==> k in order)
    && (forall i, j :: 0 <= i < j < |order| ==> order[i] != order[j])
  }

  lemma OrderAppend(order: seq<string>, events: map<string, seq<real>>, client: string, deque: seq<real>)
    requires OrderOk(order, events)
    ensures client in events ==> OrderOk(order, events[client := deque])
    ensures client !in events ==> OrderOk(order + [client], events[client := deque])
    ensures client !in events && order != [] ==> (order + [client])[0] == order[0] != client
  {
    if client !in events {
      forall k | k in events[client := deque] ensures k in order + [client] {
        assert k == client ==> (order + [client])[|order|] == client;
      }
    }
  }

  function DequeOf(events: map<string, seq<real>>, client: string): seq<real> {
    if client in events then events[client] else []
  }

  /** When a client was last evicted. */
  function Cut(evicted: map<string, real>, client: string): Option<real> {
    if client in evicted then Some(evicted[client]) else None
  }

  /** The client has been evicted within the last window. */
  predicate Recent(evicted: map<string, real>, client: string, now: real, window: real) {
    client in evicted && evicted[client] + window > now
  }

  /** What the table and the log have to say about one client, as of time `now`. */
  ghost predicate EntryOk(k: string, log: map<string, seq<real>>, events: map<string, seq<real>>, evicted: map<string,
                          real>,
                          limit: nat, now: real, window: real)
  {
    && (k in events ==> k in log && events[k] != [])
    && (k in log && k !in events ==> k in evicted)
    && (k in log ==> ClientOk(log[k], DequeOf(events, k), limit, now, window, Cut(evicted, k)))
  }

  ghost predicate ClientsOk(log: map<string, seq<real>>, events: map<string, seq<real>>, evicted: map<string, real>,
                            limit: nat, now: real, window: real)
  {
    forall k :: EntryOk(k, log, events, evicted, limit, now, window)
  }

  lemma AllLater(log: map<string, seq<real>>, events: map<string, seq<real>>, evicted: map<string, real>,
                 limit: nat, now: real, later: real, window: real)
    requires ClientsOk(log, events, evicted, limit, now, window) && now <= later
    ensures ClientsOk(log, events, evicted, limit, later, window)
  {
    forall k ensures EntryOk(k, log, events, evicted, limit, later, window) {
      assert EntryOk(k, log, events, evicted, limit, now, window);
      if k in log {
        TimePasses(log[k], DequeOf(events, k), limit, now, later, window, Cut(evicted, k));
      }
    }
  }

  /** One client's entry is replaced by another good one. */
  lemma EntryReplaced(log: map<string, seq<real>>, events: map<string, seq<real>>, evicted: map<string, real>,
                      limit: nat, now: real, window: real, client: string, history: seq<real>, deque: seq<real>)
    requires ClientsOk(log, events, evicted, limit, now, window)
    requires ClientOk(history, deque, limit, now, window, Cut(evicted, client)) && deque != []
    ensures ClientsOk(log[client := history], events[client := deque], evicted, limit, now, window)
  {
    var log', events' := log[client := history], events[client := deque];
    forall k ensures EntryOk(k, log', events', evicted, limit, now, window) {
      assert EntryOk(k, log, events, evicted, limit, now, window);
    }
  }

  lemma EvictionKeeps(log: map<string, seq<real>>, events: map<string, seq<real>>, evicted: map<string, real>,
                      limit: nat, now: real, window: real, victim: string)
    requires ClientsOk(log, events, evicted, limit, now, window) && window > 0.0
    ensures ClientsOk(log, events - {victim}, evicted[victim := now], limit, now, window)
  {
    var events', evicted' := events - {victim}, evicted[victim := now];
    forall k ensures EntryOk(k, log, events', evicted', limit, now, window) {
      assert EntryOk(k, log, events, evicted, limit, now, window);
      if k == victim && k in log {
        CutOff(log[k], now, window);
      }
    }
  }

  lemma {:induction false} SizeOfTable(order: seq<string>, events: map<string, seq<real>>)
    requires OrderOk(order, events)
    ensures |events| == |order|
  {
    if order == [] {
      assert events == map[];
    } else {
      var n := |order| - 1;
      var rest := events - {order[n]};
      SizeOfTable(order[..n], rest);
      assert events.Keys == rest.Keys + {order[n]};
    }
  }

  // ----- The limiter

  class SlidingWindowRateLimiter {
    const limit: nat
    const window: real
    const maxClients: nat
    /** The table of deques, and the insertion order of its keys. */
    var events: map<string, seq<real>>
    var order: seq<string>
    /** Every admission ever made, when clients were last evicted, and the time of the last call. */
    ghost var log: map<string, seq<real>>
    ghost var evicted: map<string, real>
    ghost var clock: Option<real>

    ghost predicate Valid()
      reads this
    {
      && window > 0.0 && 1 <= maxClients
      && OrderOk(order, events) && |order| <= maxClients
      && (clock.None? ==> log == map[] && events == map[])
      && (clock.Some? ==> ClientsOk(log, events, evicted, limit, clock.value, window))
    }

    /** The admissions of a client, none if it was never seen. */
    ghost function Admitted(client: string): seq<real>
      reads this
    {
      if client in log then log[client] else []
    }

    constructor (limit: nat, window: real, maxClients: nat)
      requires window > 0.0 && maxClients >= 1
      ensures Valid() && events == map[] && log == map[] && evicted == map[] && clock == None
      ensures this.limit == limit && this.window == window && this.maxClients == maxClients
    {
      this.limit, this.window, this.maxClients := limit, window, maxClients;
      events, order, log, evicted, clock := map[], [], map[], map[], None;
    }

    /** The pop loop drops the entries at or before the cutoff, and no count from now on changes. */
    method Expire(times: seq<real>, now: real) returns (kept: seq<real>)
      requires DequeOk(times, now)
      ensures DequeOk(kept, now) && |kept| <= |times| && SameCounts(times, kept, now, window)
      ensures forall i :: 0 <= i < |kept| ==> now - window < kept[i]
    {
      kept := times;
      while kept != [] && kept[0] <= now - window
        invariant DequeOk(kept, now) && |kept| <= |times| && SameCounts(times, kept, now, window)
        decreases |kept|
      {
        ExpireOne(times, kept, now, window);
        kept := kept[1..];
      }
    }

    /** `_evict_one_empty_client`: there is never an empty client, so the oldest entry goes. */
    method EvictOne()
      requires OrderOk(order, events) && order != [] && clock.Some?
      requires ClientsOk(log, events, evicted, limit, clock.value, window)
      modifies `events, `order, `evicted
      ensures events == old(events) - {old(order)[0]} && order == old(order)[1..]
      ensures evicted == old(evicted)[old(order)[0] := clock.value]
      ensures OrderOk(order, events)
    {
      for i := 0 to |order|
        invariant unchanged(this)
      {
        assert EntryOk(order[i], log, events, evicted, limit, clock.value, window);
        if events[order[i]] == [] {
          assert false;
        }
      }
      events := events - {order[0]};
      evicted := evicted[order[0] := clock.value];
      order := order[1..];
    }

    method Allow(client: string, now: real) returns (r: Result<(bool, int), LimiterError>, ghost victim: Option<string>)
      requires Valid()
      requires clock.Some? ==> clock.value <= now
      modifies this
      ensures Valid()
      ensures client == "" ==> r == Err(EmptyClientKey) && victim == None && unchanged(this)
      ensures client != "" && limit == 0 ==> r == Ok((true, 0)) && victim == None && unchanged(this)
      ensures client != "" && limit > 0 ==>
                && r.Ok? && clock == Some(now)
                && (!Recent(old(evicted), client, now, window) ==>
                      (r.value.0 <==> InWindow(old(Admitted(client)), now, window) < limit))
                && (r.value.0 ==> r.value.1 == 0 && log == old(log)[client := old(Admitted(client)) + [now]])
                && (!r.value.0 ==> log == old(log))
                && (!r.value.0 && !Recent(old(evicted), client, now, window) ==>
                      forall wait: nat :: WouldAdmit(Admitted(client), now, wait, window, limit) <==> wait >= r.value.1)
                // someone is evicted only when a new client meets a full table: the oldest entry, never the caller
                && victim == (if client in old(events) || |old(events)| < maxClients then None else Some(old(order)[0]))
                && client in events
                && (forall k :: k in events <==> k == client || (k in old(events) && victim != Some(k)))
                && evicted == (if victim.Some? then old(evicted)[victim.value := now] else old(evicted))
      ensures |events| <= maxClients
      ensures forall k :: k in old(events) && k != client && k in events ==> events[k] == old(events)[k]
    {
      SizeOfTable(order, events);
      victim := None;
      if client == "" {
        r := Err(EmptyClientKey);
        return;
      }
      if limit == 0 {
        r := Ok((true, 0));
        return;
      }
      if clock.Some? {
        AllLater(log, events, evicted, limit, clock.value, now, window);
      }
      ghost var deque;
      r, victim, deque := Decide(client, now);
      SizeOfTable(order, events);
    }

    method Decide(client: string, now: real)
      returns (r: Result<(bool, int), LimiterError>, ghost victim: Option<string>, ghost deque: seq<real>)
      requires window > 0.0 && limit > 0 && OrderOk(order, events) && 1 <= maxClients && |order| <= maxClients
      requires ClientsOk(log, events, evicted, limit, now, window)
      modifies this
      ensures OrderOk(order, events) && |order| <= maxClients && clock == Some(now)
      ensures ClientsOk(log, events, evicted, limit, now, window)
      ensures r.Ok?
      ensures !Recent(old(evicted), client, now, window) ==>
                (r.value.0 <==> InWindow(old(Admitted(client)), now, window) < limit)
      ensures r.value.0 ==> r.value.1 == 0 && log == old(log)[client := old(Admitted(client)) + [now]]
      ensures !r.value.0 ==> log == old(log)
      ensures !r.value.0 && !Recent(old(evicted), client, now, window) ==>
                forall wait: nat :: WouldAdmit(Admitted(client), now, wait, window, limit) <==> wait >= r.value.1
      ensures victim == (if client in old(events) || |old(order)| < maxClients then None else Some(old(order)[0]))
      ensures victim != Some(client)
      ensures events == if victim.Some? then old(events)[client := deque] - {victim.value}
                        else old(events)[client := deque]
      ensures evicted == if victim.Some? then old(evicted)[victim.value := clock.value] else old(evicted)
    {
      victim := None;
      ghost var history := Admitted(client);
      assert EntryOk(client, log, events, evicted, limit, now, window);
      var kept := Expire(DequeOf(events, client), now);
      assert ClientOk(history, kept, limit, now, window, Cut(evicted, client));
      if !Recent(evicted, client, now, window) {
        DequeCounts(history, kept, now, window);
      }
      if |kept| >= limit {
        r := Refuse(client, now, kept);
        deque := kept;
      } else {
        victim := Admit(client, now, kept);
        r := Ok((true, 0));
        deque := kept + [now];
      }
    }

    method Refuse(client: string, now: real, kept: seq<real>) returns (r: Result<(bool, int), LimiterError>)
      requires window > 0.0 && OrderOk(order, events) && 0 < limit <= |kept|
      requires ClientsOk(log, events, evicted, limit, now, window) && client in events && client in log
      requires ClientOk(log[client], kept, limit, now, window, Cut(evicted, client))
      requires forall i :: 0 <= i < |kept| ==> now - window < kept[i]
      modifies `events, `clock
      ensures events == old(events)[client := kept] && clock == Some(now)
      ensures OrderOk(order, events) && ClientsOk(log, events, evicted, limit, now, window)
      ensures r.Ok? && !r.value.0
      ensures !Recent(evicted, client, now, window) ==>
                forall wait: nat :: WouldAdmit(log[client], now, wait, window, limit) <==> wait >= r.value.1
    {
      EntryReplaced(log, events, evicted, limit, now, window, client, log[client], kept);
      OrderAppend(order, events, client, kept);
      assert log == log[client := log[client]];
      events := events[client := kept];
      clock := Some(now);
      r := Ok((false, Max(1, Ceil(window - (now - kept[0])))));
      if !Recent(evicted, client, now, window) {
        forall wait: nat ensures WouldAdmit(log[client], now, wait, window, limit) <==> wait >= r.value.1 {
          RetryIsLeast(log[client], kept, now, window, wait);
        }
      }
    }

    method Admit(client: string, now: real, kept: seq<real>) returns (ghost victim: Option<string>)
      requires window > 0.0 && OrderOk(order, events) && 1 <= maxClients && |order| <= maxClients
      requires ClientsOk(log, events, evicted, limit, now, window) && |kept| < limit
      requires ClientOk(Admitted(client), kept, limit, now, window, Cut(evicted, client))
      modifies this
      ensures clock == Some(now) && log == old(log)[client := old(Admitted(client)) + [now]]
      ensures OrderOk(order, events) && |order| <= maxClients
      ensures ClientsOk(log, events, evicted, limit, now, window)
      ensures victim == (if client in old(events) || |old(order)| < maxClients then None else Some(old(order)[0]))
      ensures events == if victim.Some? then old(events)[client := kept + [now]] - {victim.value}
                        else old(events)[client := kept + [now]]
      ensures evicted == if victim.Some? then old(evicted)[victim.value := clock.value] else old(evicted)
      ensures victim != Some(client)
    {
      AppendBoth(Admitted(client), kept, now, ExactFrom(now, Cut(evicted, client), window), window);
      EntryReplaced(log, events, evicted, limit, now, window, client, Admitted(client) + [now], kept + [now]);
      OrderAppend(order, events, client, kept + [now]);
      if client !in events {
        order := order + [client];
      }
      log := log[client := Admitted(client) + [now]];
      events := events[client := kept + [now]];
      clock := Some(now);
      victim := EvictIfFull();
    }

    method EvictIfFull() returns (ghost victim: Option<string>)
      requires window > 0.0 && OrderOk(order, events) && clock.Some? && 1 <= maxClients && |order| <= maxClients + 1
      requires ClientsOk(log, events, evicted, limit, clock.value, window)
      modifies `events, `order, `evicted
      ensures OrderOk(order, events) && |order| <= maxClients
      ensures ClientsOk(log, events, evicted, limit, clock.value, window)
      ensures victim == if |old(order)| <= maxClients then None else Some(old(order)[0])
      ensures events == if victim.Some? then old(events) - {victim.value} else old(events)
      ensures evicted == if victim.Some? then old(evicted)[victim.value := clock.value] else old(evicted)
    {
      victim := None;
      if |order| > maxClients {
        victim := Some(order[0]);
        EvictionKeeps(log, events, evicted, limit, clock.value, window, order[0]);
        EvictOne();
      }
    }
  }
}
