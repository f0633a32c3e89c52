/** The decrementing counters of the interface implement time stamps: the table holds exactly the mappings learned less
    than 30 seconds ago, and no address is asked for twice within 5 seconds. */
module ArpTimers {
  import opened Words
  import opened Ipv4Datagrams
  import opened NetworkInterfaces
  import opened ArpRuns

  /** The table is a function of what was learned when. */
  ghost predicate TableByTime(w: World)
  {
    && (forall ip <- w.learned :: w.learned[ip].time <= w.clock)
    && (forall ip: uint32 :: ip in w.iface.table <==> ip in w.learned && w.clock - w.learned[ip].time < 30000)
    && (forall ip <- w.iface.table :: ip in w.learned &&
          w.iface.table[ip] == Entry(w.learned[ip].mac, 30000 - (w.clock - w.learned[ip].time)))
  }

  /** The counters of pending requests are a function of when each address was last asked for, and an address
      that was asked for and is no longer pending has been learned since. */
  ghost predicate RequestsByTime(w: World)
  {
    && (forall ip <- w.asked :: w.asked[ip] <= w.clock)
    && (forall p <- w.iface.pending :: p.ip in w.asked && p.left == 5000 - (w.clock - w.asked[p.ip]))
    && (forall ip <- w.asked :: Asked(w.iface.pending, ip) || (ip in w.learned && w.learned[ip].time >= w.asked[ip]))
  }

  function RequestIp(l: Logged): uint32
    requires IsRequest(l)
  {
    l.frame.payload.message.targetIp
  }

  /** Requests for one address are at least 5 seconds apart, and every one of them is a broadcast. */
  ghost predicate Spaced(log: seq<Logged>)
  {
    && (forall l <- log :: IsRequest(l) ==> l.frame.dst == BROADCAST)
    && (forall j, k :: 0 <= j < k < |log| && IsRequest(log[j]) && IsRequest(log[k]) &&
                       RequestIp(log[j]) == RequestIp(log[k]) ==>
          log[j].time + 5000 <= log[k].time)
  }

  /** No request in the log is later than the last one recorded for its address. */
  ghost predicate Recorded(w: World)
  {
    forall l <- w.log :: IsRequest(l) ==> RequestIp(l) in w.asked && l.time <= w.asked[RequestIp(l)]
  }

  ghost predicate Timed(w: World)
  {
    Tidy(w.iface) && TableByTime(w) && RequestsByTime(w) && Spaced(w.log) && Recorded(w)
  }

  // ----- the table -----

  lemma TableTicks(w: World, ms: nat)
    requires TableByTime(w)
    ensures TableByTime(Observe(w, Tick(ms)))
  {
    hide Aged, Interface.Repeated, Older, RequestIps;
    AgedIs(w.iface.table, ms);
  }

  lemma TableActs(w: World, a: Action)
    requires TableByTime(w)
    ensures TableByTime(Observe(w, a))
  {
    hide RequestIps, Asked, Forgotten, Others, Interface.Flushed, Interface.ArpFrame, LogData, Interface.Tick;
    if a.Tick? {
      TableTicks(w, a.ms);
    }
  }

  // ----- requests -----

  /** The addresses whose requests are repeated by a tick, in order. */
  function Expired(ps: seq<Pending>, ms: nat): seq<uint32>
  {
    if ps == [] then [] else (if ps[0].left <= ms then [ps[0].ip] else []) + Expired(ps[1..], ms)
  }

  lemma {:induction false} RepeatedAre(i: Interface, ps: seq<Pending>, ms: nat)
    ensures |i.Repeated(ps, ms)| == |Expired(ps, ms)|
    ensures forall k :: 0 <= k < |Expired(ps, ms)| ==> i.Repeated(ps, ms)[k] == i.ArpFrame(Expired(ps, ms)[k], Request)
    decreases |ps|
  {
    hide Interface.ArpFrame;
    if ps != [] {
      RepeatedAre(i, ps[1..], ms);
    }
  }

  lemma {:induction false} ExpiredAre(ps: seq<Pending>, ms: nat)
    ensures forall ip :: ip in Expired(ps, ms) <==> exists p <- ps :: p.ip == ip && p.left <= ms
    ensures Distinct(ps) ==> forall j, k :: 0 <= j < k < |Expired(ps, ms)| ==> Expired(ps, ms)[j] != Expired(ps, ms)[k]
    decreases |ps|
  {
    if ps != [] {
      ExpiredAre(ps[1..], ms);
      assert ps == [ps[0]] + ps[1..];
      if Distinct(ps) {
        assert forall p | p in ps[1..] :: p.ip != ps[0].ip;
        var rest := Expired(ps[1..], ms);
        assert forall k | 0 <= k < |rest| :: rest[k] in rest;
      }
    }
  }

  /** The addresses that an action sends requests for. */
  function Requests(i: Interface, a: Action): seq<uint32>
  {
    match a
    case Send(_, hop) => if hop in i.table || Asked(i.pending, hop) then [] else [hop]
    case Tick(ms) => Expired(i.pending, ms)
    case _ => []
  }

  /** The requests in what an action emits: one broadcast each for those addresses, at the same time. */
  lemma EmittedRequests(i: Interface, a: Action, clock: nat)
    requires Tidy(i)
    ensures var log, time := Emits(i, a, clock), clock + (if a.Tick? then a.ms else 0);
            && (forall l <- log :: IsRequest(l) ==>
                 l.time == time && l.frame.dst == BROADCAST && RequestIp(l) in Requests(i, a))
            && (forall ip <- Requests(i, a) :: ip in RequestIps(log))
            && (forall j, k :: 0 <= j < k < |log| && IsRequest(log[j]) && IsRequest(log[k]) ==>
                 RequestIp(log[j]) != RequestIp(log[k]))
  {
    match a
    case Tick(ms) =>
      RepeatedAre(i, i.pending, ms);
      ExpiredAre(i.pending, ms);
      TickRequests(i, ms, clock);
    case _ =>
  }

  lemma TickRequests(i: Interface, ms: nat, clock: nat)
    requires Tidy(i)
    ensures var log := Emits(i, Tick(ms), clock);
            && (forall l <- log :: IsRequest(l) && l.time == clock + ms && l.frame.dst == BROADCAST
                 && RequestIp(l) in Expired(i.pending, ms))
            && (forall ip <- Expired(i.pending, ms) :: ip in RequestIps(log))
            && (forall j, k :: 0 <= j < k < |log| ==> RequestIp(log[j]) != RequestIp(log[k]))
  {
    hide Expired, Interface.Repeated;
    RepeatedAre(i, i.pending, ms);
    ExpiredAre(i.pending, ms);
    var log, ips := Emits(i, Tick(ms), clock), Expired(i.pending, ms);
    assert forall k | 0 <= k < |ips| :: ips[k] in ips;
    assert forall k | 0 <= k < |log| ::
             log[k] in log && log[k] == Arp(clock + ms, i.ArpFrame(ips[k], Request)) && ips[k] !in i.table;
  }

  /** An address is asked for again only 5 seconds or more after it was last asked for. */
  lemma RequestGap(w: World, a: Action, ip: uint32)
    requires Timed(w) && ip in Requests(w.iface, a) && ip in w.asked
    ensures w.asked[ip] + 5000 <= w.clock + (if a.Tick? then a.ms else 0)
  {
    hide Spaced, Recorded;
    if a.Tick? {
      ExpiredAre(w.iface.pending, a.ms);
    }
  }

  /** When each address was last asked for, after an action. */
  lemma AskedAfter(w: World, a: Action, ip: uint32)
    requires Tidy(w.iface)
    ensures var w' := Observe(w, a);
            && (ip in w'.asked <==> ip in w.asked || ip in Requests(w.iface, a))
            && (ip in w'.asked ==> w'.asked[ip] == if ip in Requests(w.iface, a) then w'.clock else w.asked[ip])
  {
    hide Act, Emits, Requests, Tidy;
    EmittedRequests(w.iface, a, w.clock);
    var log := Emits(w.iface, a, w.clock);
    assert ip in RequestIps(log) <==> ip in Requests(w.iface, a);
  }

  lemma SpacingActs(w: World, a: Action)
    requires Timed(w)
    ensures Spaced(Observe(w, a).log)
  {
    hide Act, Emits, Requests, Tidy, TableByTime, RequestsByTime, RequestIps;
    var log, more := w.log, Emits(w.iface, a, w.clock);
    var log' := log + more;
    EmittedRequests(w.iface, a, w.clock);
    forall j, k | 0 <= j < k < |log'| && IsRequest(log'[j]) && IsRequest(log'[k])
        && RequestIp(log'[j]) == RequestIp(log'[k])
      ensures log'[j].time + 5000 <= log'[k].time
    {
      if k >= |log| {
        assert more[k - |log|] in more;
        if j < |log| {
          assert log[j] in log;
          RequestGap(w, a, RequestIp(log'[k]));
        }
      }
    }
  }

  lemma RecordingActs(w: World, a: Action)
    requires Timed(w)
    ensures Recorded(Observe(w, a))
  {
    hide Act, Emits, Requests, Tidy, TableByTime, Spaced, RequestIps;
    EmittedRequests(w.iface, a, w.clock);
    forall l <- Observe(w, a).log | IsRequest(l)
      ensures RequestIp(l) in Observe(w, a).asked && l.time <= Observe(w, a).asked[RequestIp(l)]
    {
      AskedAfter(w, a, RequestIp(l));
    }
  }

  lemma SendRequestsByTime(w: World, d: Datagram, hop: uint32)
    requires Timed(w)
    ensures RequestsByTime(Observe(w, Send(d, hop)))
  {
    hide Emits, Tidy, TableByTime, Spaced, Recorded, RequestIps, Asked;
    var w' := Observe(w, Send(d, hop));
    forall ip: uint32
      ensures ip in w'.asked <==> ip in w.asked || ip in Requests(w.iface, Send(d, hop))
      ensures ip in w'.asked ==> w'.asked[ip] == if ip in Requests(w.iface, Send(d, hop)) then w.clock else w.asked[ip]
      ensures Asked(w.iface.pending + [Pending(hop, 5000)], ip) <==> Asked(w.iface.pending, ip) || ip == hop
    {
      AskedAfter(w, Send(d, hop), ip);
      AppendAsked(w.iface.pending, Pending(hop, 5000), w.iface.waiting, Waiting(hop, d), ip);
    }
    if !Asked(w.iface.pending, hop) {
      NotAskedMembers(w.iface.pending, hop);
    }
  }

  lemma NotAskedMembers(ps: seq<Pending>, ip: uint32)
    requires !Asked(ps, ip)
    ensures forall p <- ps :: p.ip != ip
  {
  }

  lemma ReceiveRequestsByTime(w: World, f: Frame)
    requires Timed(w)
    ensures RequestsByTime(Observe(w, Receive(f)))
  {
    hide Emits, Tidy, TableByTime, Spaced, Recorded, RequestIps, Asked, Forgotten, Others, Interface.Flushed;
    var w' := Observe(w, Receive(f));
    if w.iface.Hears(f) {
      ForgottenIs(w.iface.pending, f.payload.message.senderIp);
    }
    forall ip: uint32
      ensures ip in w'.asked <==> ip in w.asked
      ensures ip in w'.asked ==> w'.asked[ip] == w.asked[ip]
      ensures w.iface.Hears(f) ==> (Asked(Forgotten(w.iface.pending, f.payload.message.senderIp), ip) <==>
                                    Asked(w.iface.pending, ip) && ip != f.payload.message.senderIp)
    {
      AskedAfter(w, Receive(f), ip);
      if w.iface.Hears(f) {
        ForgottenAsked(w.iface.pending, f.payload.message.senderIp, ip);
      }
    }
  }

  lemma OlderLeft(w: World, ms: nat, p: Pending)
    requires Distinct(w.iface.pending) && RequestsByTime(w) && p in Older(w.iface.pending, ms)
    ensures if p.ip in Expired(w.iface.pending, ms) then p.left == 5000
            else p.ip in w.asked && p.left == 5000 - (w.clock + ms - w.asked[p.ip])
  {
    hide Older, Expired, Asked;
    var ps := w.iface.pending;
    OlderIs(ps, ms);
    var k :| 0 <= k < |ps| && Older(ps, ms)[k] == p;
    assert ps[k] in ps;
    OnlyOne(ps, k, ms);
  }

  lemma TickRequestsByTime(w: World, ms: nat)
    requires Timed(w)
    ensures RequestsByTime(Observe(w, Tick(ms)))
  {
    hide Emits, TableByTime, Spaced, Recorded, RequestIps, Asked, Older, Expired, Aged, Interface.Repeated;
    var w', ps := Observe(w, Tick(ms)), w.iface.pending;
    forall ip: uint32
      ensures ip in w'.asked <==> ip in w.asked || ip in Expired(ps, ms)
      ensures ip in w'.asked ==> w'.asked[ip] == if ip in Expired(ps, ms) then w'.clock else w.asked[ip]
      ensures Asked(w'.iface.pending, ip) <==> Asked(ps, ip)
    {
      AskedAfter(w, Tick(ms), ip);
      OlderAsked(ps, ms, ip);
    }
    forall p <- w'.iface.pending
      ensures p.ip in w'.asked && p.left == 5000 - (w'.clock - w'.asked[p.ip])
    {
      OlderLeft(w, ms, p);
    }
    forall ip <- Expired(ps, ms)
      ensures Asked(ps, ip)
    {
      ExpiredAsked(ps, ms, ip);
    }
  }

  lemma ExpiredAsked(ps: seq<Pending>, ms: nat, ip: uint32)
    requires ip in Expired(ps, ms)
    ensures Asked(ps, ip)
  {
    ExpiredAre(ps, ms);
  }

  lemma OnlyOne(ps: seq<Pending>, k: nat, ms: nat)
    requires Distinct(ps) && k < |ps|
    ensures ps[k].ip in Expired(ps, ms) <==> ps[k].left <= ms
  {
    ExpiredAre(ps, ms);
  }

  lemma RequestsActs(w: World, a: Action)
    requires Timed(w)
    ensures RequestsByTime(Observe(w, a))
  {
    hide Timed, RequestsByTime, Observe;
    match a
    case Send(d, hop) => SendRequestsByTime(w, d, hop);
    case Receive(f) => ReceiveRequestsByTime(w, f);
    case Tick(ms) => TickRequestsByTime(w, ms);
    case TakeFrames => TakeRequestsByTime(w);
  }

  lemma TakeRequestsByTime(w: World)
    requires Timed(w)
    ensures RequestsByTime(Observe(w, TakeFrames))
  {
    hide TableByTime, Spaced, Recorded, Tidy;
    assert RequestIps([]) == {};
  }

  lemma ActIsTimed(w: World, a: Action)
    requires Timed(w)
    ensures Timed(Observe(w, a))
  {
    hide Act, Emits, Tidy, TableByTime, RequestsByTime, Spaced, Recorded, RequestIps;
    ActIsTidy(w.iface, a);
    TableActs(w, a);
    RequestsActs(w, a);
    SpacingActs(w, a);
    RecordingActs(w, a);
  }

  lemma {:induction false} AlwaysTimed(w: World, actions: seq<Action>)
    requires Timed(w)
    ensures Timed(ObserveAll(w, actions))
    decreases |actions|
  {
    hide Timed, Observe;
    if actions != [] {
      AlwaysTimed(w, actions[..|actions| - 1]);
      ActIsTimed(ObserveAll(w, actions[..|actions| - 1]), actions[|actions| - 1]);
    }
  }

  /** The timers implement time stamps.  In every run, the table is exactly the mappings learned less than 30000 ticked
      milliseconds ago, with the time they have left; every counter is positive; and of any two requests for
      one address the later went out at least 5000 ticked milliseconds after the earlier, both as broadcasts. */
  lemma TimersImplementTimestamps(mac: Mac, ip: uint32, actions: seq<Action>, x: uint32)
    ensures var w := ObserveAll(Begin(mac, ip), actions);
            && (x in w.iface.table <==> x in w.learned && w.clock - w.learned[x].time < 30000)
            && (x in w.iface.table ==>
                  w.iface.table[x] == Entry(w.learned[x].mac, 30000 - (w.clock - w.learned[x].time)))
            && (forall p <- w.iface.pending :: 0 < p.left <= 5000)
            && Spaced(w.log)
  {
    hide ObserveAll, RequestsByTime, Recorded, Spaced;
    BeginIsTimed(mac, ip);
    AlwaysTimed(Begin(mac, ip), actions);
  }

  lemma BeginIsTimed(mac: Mac, ip: uint32)
    ensures Timed(Begin(mac, ip))
  {
  }

  /** Every datagram is framed to the address most recently learned for its next hop, less than 30 seconds before. */
  lemma FramedToLearnedMac(w: World, a: Action)
    requires Timed(w)
    ensures var w' := Observe(w, a);
            forall l <- Emits(w.iface, a, w.clock) :: l.Data? ==>
              && l.hop in w'.learned && w'.clock - w'.learned[l.hop].time < 30000
              && l.frame.dst == w'.learned[l.hop].mac && l.frame.src == w.iface.mac
  {
    hide RequestsByTime, Recorded, Spaced, Tidy, RequestIps, Interface.Repeated;
    if a.Receive? && w.iface.Hears(a.frame) {
      var m := a.frame.payload.message;
      FlushedAddress(w.iface.(table := w.iface.table[m.senderIp := Entry(m.senderMac, 30000)]),
                     w.iface.waiting, m.senderIp);
    }
  }

  lemma {:induction false} FlushedAddress(i: Interface, ws: seq<Waiting>, hop: uint32)
    requires hop in i.table
    ensures forall f <- i.Flushed(ws, hop) :: f.dst == i.table[hop].mac && f.src == i.mac
    decreases |ws|
  {
    if ws != [] {
      FlushedAddress(i, ws[1..], hop);
    }
  }
}
