/**
 * The Grs object of grs.c: the listening socket, the poll array, the rider
 * lists, the bib counter, the two flags and the time of the last report,
 * with the fd table fdMapTbl kept beside them. Each proc* method updates
 * the fields in place and is proved to do exactly what the matching
 * registry transition says, so the lemmas about the transitions carry
 * over to the object.
 */
module Server {
  import opened Options
  import opened Defs
  import opened CLib
  import opened Json
  import opened Registry
  import opened RegistryLemmas
  import opened PollSet
  import opened GoList

  /** The ppoll timeout grsMain computes: the report period minus a zero deltaT. */
  function PollTimeout(reportPeriod: int): (t: Timespec)
    ensures t == Timespec(reportPeriod, 0)
  {
    var period := Timespec(reportPeriod, 0);
    TvSubZero(period);
    TvSub(period, Timespec(0, 0))
  }

  /** Whether the report period has run out since the last report, as grsMain tests it. */
  predicate ReportDue(start: Timespec, lastReport: Timespec, reportPeriod: int) {
    TvCmp(TvSub(start, lastReport), Timespec(reportPeriod, 0)) >= 0
  }

  /**
   * With normalised times and no nanosecond borrow the test is exactly
   * "at least reportPeriod seconds have passed".
   */
  lemma ReportDueElapsed(start: Timespec, lastReport: Timespec, reportPeriod: int)
    requires 0 <= lastReport.nsec <= start.nsec < 1000000000
    ensures ReportDue(start, lastReport, reportPeriod) <==>
              Nanos(start) - Nanos(lastReport) >= reportPeriod * 1000000000
  {
    var d := TvSub(start, lastReport);
    assert d == Timespec(start.sec - lastReport.sec, start.nsec - lastReport.nsec);
    assert 0 <= d.nsec < 1000000000;
    assert Nanos(d) == d.sec * 1000000000 + d.nsec;
    if d.sec >= reportPeriod {
      assert Nanos(d) >= reportPeriod * 1000000000;
    } else {
      assert d.sec <= reportPeriod - 1;
      assert Nanos(d) < reportPeriod * 1000000000;
    }
  }

  /** The number of poll entries with events, which ppoll returns. */
  function Ready(entries: seq<PollFd>): (n: nat)
    ensures n <= |entries|
    ensures n == 0 <==> forall i :: 0 <= i < |entries| ==> entries[i].revents == 0
  {
    if entries == [] then 0
    else (if entries[0].revents != 0 then 1 else 0) + Ready(entries[1..])
  }

  /**
   * The TAILQ_FOREACH of sendGoMsg over one rider list: a send to each
   * registered rider, head to tail, until one fails.
   */
  method SendList(m: map<int, Rider>, l: seq<int>, failing: set<int>) returns (failed: bool, sent: seq<int>)
    requires forall x :: x in l ==> x in m
    ensures sent == Attempts(RegisteredOf(m, l), failing)
    ensures failed <==> AnyFails(RegisteredOf(m, l), failing)
  {
    sent := [];
    var i := 0;
    assert l[0..] == l;
    while i < |l|
      invariant 0 <= i <= |l|
      invariant Attempts(RegisteredOf(m, l), failing) == sent + Attempts(RegisteredOf(m, l[i..]), failing)
      invariant AnyFails(RegisteredOf(m, l), failing) <==> AnyFails(RegisteredOf(m, l[i..]), failing)
    {
      assert l[i] in l;
      assert l[i..][0] == l[i] && l[i..][1..] == l[i + 1..];
      var tail := RegisteredOf(m, l[i + 1..]);
      if m[l[i]].state == Registered {
        assert RegisteredOf(m, l[i..]) == [l[i]] + tail;
        AttemptsCons(l[i], tail, failing);
        if l[i] in failing {
          return true, sent + [l[i]];
        }
        sent := sent + [l[i]];
      } else {
        assert RegisteredOf(m, l[i..]) == tail;
      }
      i := i + 1;
    }
    assert l[i..] == [];
    return false, sent;
  }

  /**
   * The age-group loop of sendGoMsg for gender g: list by list, until a
   * send fails. Without a failure, the sends from the next gender on
   * follow.
   */
  method SendGender(m: map<int, Rider>, rl: RiderLists, g: nat, failing: set<int>) returns (failed: bool, sent: seq<int>)
    requires Shaped(rl) && g < GENDER_MAX && forall a: AgeGrp, x :: x in rl[g][a] ==> x in m
    ensures failed ==> AnyFails(GoFrom(m, rl, g, 0), failing) && Attempts(GoFrom(m, rl, g, 0), failing) == sent
    ensures !failed ==> && Attempts(GoFrom(m, rl, g, 0), failing) == sent + Attempts(GoFrom(m, rl, g + 1, 0), failing)
                        && (AnyFails(GoFrom(m, rl, g, 0), failing) <==> AnyFails(GoFrom(m, rl, g + 1, 0), failing))
  {
    ghost var order := GoFrom(m, rl, g, 0);
    sent := [];
    var a := 0;
    while a < AGE_GRP_MAX
      invariant 0 <= a <= AGE_GRP_MAX
      invariant Attempts(order, failing) == sent + Attempts(GoFrom(m, rl, g, a), failing)
      invariant AnyFails(order, failing) <==> AnyFails(GoFrom(m, rl, g, a), failing)
    {
      var more;
      failed, more := SendList(m, rl[g][a], failing);
      GoStep(m, rl, g, a, failing);
      AttemptsFail(RegisteredOf(m, rl[g][a]), failing);
      if failed {
        return true, sent + more;
      }
      ghost var rest := Attempts(GoFrom(m, rl, g, a + 1), failing);
      assert more == RegisteredOf(m, rl[g][a]);
      ConcatAssoc(sent, more, rest);
      sent := sent + more;
      a := a + 1;
    }
    assert GoFrom(m, rl, g, AGE_GRP_MAX) == GoFrom(m, rl, g + 1, 0);
    return false, sent;
  }

  /**
   * sendGoMsg, given the fds whose send fails: every registered rider,
   * list by list, until the first failure. sent lists the fds sent to.
   */
  method SendGo(m: map<int, Rider>, rl: RiderLists, failing: set<int>) returns (rc: int, sent: seq<int>)
    requires Shaped(rl) && forall g: Gender, a: AgeGrp, x :: x in rl[g][a] ==> x in m
    ensures sent == Attempts(GoFrom(m, rl, 0, 0), failing)
    ensures rc == 0 || rc == -1
    ensures rc == -1 <==> AnyFails(GoFrom(m, rl, 0, 0), failing)
  {
    ghost var order := GoFrom(m, rl, 0, 0);
    sent := [];
    var g := 0;
    while g < GENDER_MAX
      invariant 0 <= g <= GENDER_MAX
      invariant Attempts(order, failing) == sent + Attempts(GoFrom(m, rl, g, 0), failing)
      invariant AnyFails(order, failing) <==> AnyFails(GoFrom(m, rl, g, 0), failing)
    {
      var failed, more := SendGender(m, rl, g, failing);
      if failed {
        return -1, sent + more;
      }
      ConcatAssoc(sent, more, Attempts(GoFrom(m, rl, g + 1, 0), failing));
      sent := sent + more;
      g := g + 1;
    }
    AttemptsFail([], failing);
    return 0, sent;
  }

  /**
   * The scanning half of procData: a failed read, no object, no "type",
   * or the type compared against "regReq" and "progUpd" with strncmp.
   */
  method ReadMessage(inb: Inbound) returns (msg: Message)
    requires Readable(inb)
    ensures msg == Classify(inb)
  {
    if inb.len <= 0 {
      return ReadFailed;
    }
    var found, obj := FindObject(inb.mem, inb.len);
    if found != 0 {
      return NoObject;
    }
    LastNul(inb.mem, obj.end);
    var msgType := FindTag(inb.mem, obj, "type");
    if msgType.None? {
      return NoType;
    }
    if RegionIs(inb.mem, msgType.value, "\"regReq\"") {
      return RegReqMsg(obj);
    } else if RegionIs(inb.mem, msgType.value, "\"progUpd\"") {
      return ProgUpdMsg(obj);
    }
    return Unsupported;
  }

  class Grs {
    /** The listening socket. */
    const sd: int
    /** The poll array, maxRiders entries long. */
    const pollFds: array<PollFd>
    var numFds: int
    var rebuildPollFds: bool
    var rideActive: bool
    var numRegRiders: int
    var riderList: RiderLists
    /** fdMapTbl: the rider behind each connected fd. */
    var fdMap: map<int, Rider>
    var lastReport: Timespec

    function State(): Registry
      reads this
    {
      Registry(fdMap, riderList, numRegRiders, rideActive, rebuildPollFds)
    }

    /** The first numFds poll entries watch the listening socket and then every mapped fd, in fd order. */
    predicate Mirrors()
      reads this, pollFds
    {
      Mirrored(sd, fdMap.Keys, numFds, pollFds[..])
    }

    /** The registry invariant, and numFds counts entries of the poll array. */
    predicate Valid()
      reads this, pollFds
    {
      && Inv(State())
      && 1 <= numFds <= pollFds.Length
    }

    /**
     * The set-up grsMain does before its loop: empty rider lists, a
     * maxRiders-entry poll array holding just the listening socket, and
     * the ride active from the start when no start time was given.
     */
    constructor (listenSd: int, args: CmdArgs)
      requires args.maxRiders >= 1
      ensures sd == listenSd && pollFds.Length == args.maxRiders
      ensures State() == Initial(args.startTime) && lastReport == Timespec(0, 0)
      ensures Valid() && Mirrors() && numFds == 1 && pollFds[0] == PollFd(listenSd, POLLIN, 0)
    {
      sd := listenSd;
      pollFds := new PollFd[args.maxRiders](_ => PollFd(0, 0, 0));
      fdMap := map[];
      riderList := EmptyLists();
      numRegRiders := 0;
      rideActive := false;
      rebuildPollFds := false;
      numFds := 0;
      lastReport := Timespec(0, 0);
      new;
      ScanCount(fdMap.Keys);
      BuildPollFds();
      if args.startTime == 0 {
        ghost var r := State();
        rideActive := true;
        assert State() == r.(rideActive := true);
      }
    }

    /**
     * buildPollFds: the listening socket, then every mapped fd found by
     * scanning the table upwards, all with cleared revents. The array is
     * written without a bound check, so it must have room for them.
     */
    method BuildPollFds()
      requires forall fd :: fd in fdMap ==> 0 <= fd < MAX_FD_VAL
      requires 1 + |fdMap| <= pollFds.Length
      modifies this, pollFds
      ensures Mirrors() && State() == old(State()).(rebuildPollFds := false)
      ensures Filled(pollFds[..], Watched(sd, fdMap.Keys))
      ensures lastReport == old(lastReport)
    {
      var n := FillPollFds(pollFds, sd, fdMap);
      numFds := n;
      rebuildPollFds := false;
    }

    /**
     * procConnect, given what accept returned and whether TCP_NODELAY
     * could be set; the new fd indexes fdMapTbl unchecked.
     */
    method ProcConnect(acceptRc: int, noDelayOk: bool) returns (rc: int)
      requires Valid() && acceptRc < MAX_FD_VAL && acceptRc !in fdMap
      modifies this
      ensures Outcome(State(), rc) == Connect(old(State()), acceptRc, noDelayOk)
      ensures Valid() && numFds == old(numFds) && lastReport == old(lastReport)
    {
      ConnectInv(State(), acceptRc, noDelayOk);
      if acceptRc < 0 {
        return -1;
      }
      if !noDelayOk {
        return -1;
      }
      fdMap := fdMap[acceptRc := NewRider(acceptRc)];
      rebuildPollFds := true;
      return 0;
    }

    /** procDisconnect: unlink a listed rider, drop the map entry, ask for a rebuild. */
    method ProcDisconnect(fd: int) returns (rc: int)
      requires Valid()
      modifies this
      ensures Outcome(State(), rc) == Disconnect(old(State()), fd)
      ensures Valid() && numFds == old(numFds) && lastReport == old(lastReport)
    {
      DisconnectInv(State(), fd);
      if fd !in fdMap {
        return -1;
      }
      var rd := fdMap[fd];
      if rd.state == Registered || rd.state == Active {
        riderList := Unlink(riderList, rd.gender, rd.ageGrp, fd);
      }
      fdMap := fdMap - {fd};
      rebuildPollFds := true;
      return 0;
    }

    /**
     * procRegReqMsg on the object obj in mem, with whether the regResp
     * send succeeds. It compares the "ride" value with args.rideName,
     * which must therefore be set.
     */
    method ProcRegReqMsg(args: CmdArgs, fd: int, mem: seq<char>, obj: JsonObject, sendOk: bool) returns (rc: int)
      requires Shaped(riderList) && args.rideName.Some?
      requires WellFormed(mem, obj) && HasNul(mem, obj.end)
      modifies this
      ensures Outcome(State(), rc) == RegReq(old(State()), args.rideName.value, fd, RegReqTagsOf(mem, obj), sendOk)
      ensures numFds == old(numFds) && lastReport == old(lastReport)
      ensures fdMap.Keys == old(fdMap.Keys) && rebuildPollFds == old(rebuildPollFds)
    {
      if fd !in fdMap {
        return -1;
      }
      var rd := fdMap[fd];
      if rd.state != Connected {
        return -1;
      }
      var ride := GetTagValue(mem, obj, "ride");
      if ride.None? || ride.value != args.rideName.value {
        return -1;
      }
      var name := GetTagValue(mem, obj, "name");
      var gender := GetTagValue(mem, obj, "gender");
      var age := GetTagValue(mem, obj, "age");
      var tags := RegReqTags(ride, name, gender, age);
      rc := Enrol(args.rideName.value, fd, tags, sendOk);
    }

    /**
     * The registration proper of procRegReqMsg, for a connected rider
     * whose "ride" value names the ride: its tag values, the next bib
     * number, the regResp reply and, when that was sent, the head of its
     * list.
     */
    method Enrol(ghost rideName: string, fd: int, tags: RegReqTags, sendOk: bool) returns (rc: int)
      requires Shaped(riderList) && fd in fdMap && fdMap[fd].state == Connected && tags.ride == Some(rideName)
      modifies this
      ensures Outcome(State(), rc) == RegReq(old(State()), rideName, fd, tags, sendOk)
      ensures numFds == old(numFds) && lastReport == old(lastReport)
      ensures fdMap.Keys == old(fdMap.Keys) && rebuildPollFds == old(rebuildPollFds)
    {
      var rd := fdMap[fd];
      ghost var r0 := State();
      var ageVal := AgeFromTagVal(tags.age);
      rd := rd.(name := tags.name, gender := GenderFromTagVal(tags.gender), age := ageVal, ageGrp := AgeToAgeGrp(ageVal));
      numRegRiders := numRegRiders + 1;
      rd := rd.(bibNum := numRegRiders);
      assert rd == Registering(r0.fdMap[fd], tags, r0.numRegRiders + 1);
      if !sendOk {
        fdMap := fdMap[fd := rd];
        return -1;
      }
      rd := rd.(state := Registered);
      fdMap := fdMap[fd := rd];
      riderList := LinkHead(riderList, rd.gender, rd.ageGrp, fd);
      return 0;
    }

    /** procProgUpdMsg: a registered rider's "distance" and "power", read with "%d", while the ride is active. */
    method ProcProgUpdMsg(fd: int, mem: seq<char>, obj: JsonObject) returns (rc: int)
      requires WellFormed(mem, obj) && HasNul(mem, obj.end)
      modifies this
      ensures Outcome(State(), rc) == ProgUpd(old(State()), fd, ProgUpdTagsOf(mem, obj))
      ensures numFds == old(numFds) && lastReport == old(lastReport)
      ensures fdMap.Keys == old(fdMap.Keys) && rebuildPollFds == old(rebuildPollFds)
    {
      if !rideActive {
        return -1;
      }
      if fd !in fdMap {
        return -1;
      }
      var rd := fdMap[fd];
      if rd.state != Registered {
        return -1;
      }
      var distance := GetTagValue(mem, obj, "distance");
      rd := rd.(distance := ScanIntOr(distance, rd.distance));
      var power := GetTagValue(mem, obj, "power");
      rd := rd.(power := ScanIntOr(power, rd.power));
      assert ProgUpdTagsOf(mem, obj) == ProgUpdTags(distance, power);
      fdMap := fdMap[fd := rd];
      return 0;
    }

    /**
     * procData, given the read result: find the object, find its "type",
     * and hand "regReq" and "progUpd" messages to their handlers.
     */
    method ProcData(args: CmdArgs, fd: int, inb: Inbound) returns (rc: int)
      requires Valid() && args.rideName.Some? && Readable(inb)
      modifies this
      ensures Outcome(State(), rc) == Serve(old(State()), args.rideName.value, fd, RequestOf(inb))
      ensures Valid() && numFds == old(numFds) && lastReport == old(lastReport)
    {
      ghost var r0 := State();
      ServeInv(r0, args.rideName.value, fd, RequestOf(inb));
      var msg := ReadMessage(inb);
      ghost var req := RequestOf(inb);
      rc := 0;
      match msg {
        case RegReqMsg(obj) =>
          assert req == Register(RegReqTagsOf(inb.mem, obj), inb.sendOk);
          var _ := ProcRegReqMsg(args, fd, inb.mem, obj, inb.sendOk);
        case ProgUpdMsg(obj) =>
          assert req == Progress(ProgUpdTagsOf(inb.mem, obj));
          var _ := ProcProgUpdMsg(fd, inb.mem, obj);
        case _ =>
          assert req == Rejected;
          rc := -1;
      }
    }

    /**
     * The loop of procFdEvents over the connected sockets, entries 1 up
     * to numFds: a hangup, a read, or a stop with -1 on any other event.
     */
    method SweepEntries(args: CmdArgs, inputs: seq<Inbound>) returns (s: int, aborted: bool)
      requires Valid() && args.rideName.Some?
      requires |inputs| == numFds && forall i :: 0 <= i < |inputs| ==> Readable(inputs[i])
      modifies this
      ensures var w := SweepFrom(old(State()), args.rideName.value, old(pollFds[..numFds]), inputs, 1, 0);
              State() == w.reg && s == w.s && aborted == w.aborted
      ensures Valid() && numFds == old(numFds) && lastReport == old(lastReport)
    {
      var rideName := args.rideName.value;
      ghost var entries := pollFds[..numFds];
      ghost var r1 := State();
      s := 0;
      var n := 1;
      while n < numFds
        invariant 1 <= n <= numFds == |entries| && entries == pollFds[..numFds]
        invariant Valid() && lastReport == old(lastReport)
        invariant SweepFrom(State(), rideName, entries, inputs, n, s) == SweepFrom(r1, rideName, entries, inputs, 1, 0)
        decreases numFds - n
      {
        var revents := pollFds[n].revents;
        assert entries[n] == pollFds[n];
        if revents & (POLLRDHUP | POLLHUP) != 0 {
          s := ProcDisconnect(pollFds[n].fd);
        } else if revents & POLLIN != 0 {
          s := ProcData(args, pollFds[n].fd, inputs[n]);
        } else if revents != 0 {
          return -1, true;
        }
        n := n + 1;
      }
      return s, false;
    }

    /**
     * procFdEvents on the revents ppoll left in the array: a connect first
     * when the listening socket is readable, then a hangup, a read or a
     * stop for every other entry, and a rebuild of the array at the end
     * when the connections changed. It is specified by FdEvents over the
     * entries as they were on entry.
     */
    method ProcFdEvents(args: CmdArgs, acceptRc: int, noDelayOk: bool, inputs: seq<Inbound>) returns (rc: int)
      requires Valid() && Mirrors() && !rebuildPollFds && args.rideName.Some?
      requires |fdMap| + 2 <= pollFds.Length
      requires |inputs| == numFds && forall i :: 0 <= i < |inputs| ==> Readable(inputs[i])
      requires acceptRc < MAX_FD_VAL && acceptRc !in fdMap
      modifies this, pollFds
      ensures var w := FdEvents(old(State()), args.rideName.value, old(pollFds[..numFds]), inputs, acceptRc, noDelayOk);
              && rc == w.s && (w.aborted ==> rc == -1)
              && (w.aborted ==> State() == w.reg)
              && (!w.aborted ==> State() == w.reg.(rebuildPollFds := false) && Mirrors())
      ensures Valid() && lastReport == old(lastReport) && rideActive == old(rideActive)
    {
      var rideName := args.rideName.value;
      ghost var entries := pollFds[..numFds];
      ghost var r0 := State();
      FdEventsKeys(r0, rideName, entries, inputs, acceptRc, noDelayOk);
      if pollFds[0].revents & POLLIN != 0 {
        var c := ProcConnect(acceptRc, noDelayOk);
        if c != 0 {
          return -1;
        }
      }
      var s, aborted := SweepEntries(args, inputs);
      if aborted {
        return -1;
      }
      if rebuildPollFds {
        SubsetCard(fdMap.Keys, r0.fdMap.Keys + {acceptRc});
        BuildPollFds();
      } else {
        assert pollFds[..] == old(pollFds[..]) && fdMap.Keys == r0.fdMap.Keys;
      }
      return s;
    }

    /** sendGoMsg on this object's fd table and rider lists. */
    method SendGoMsg(failing: set<int>) returns (rc: int, sent: seq<int>)
      requires Inv(State())
      ensures sent == Attempts(GoOrder(State()), failing)
      ensures rc == 0 || rc == -1
      ensures rc == -1 <==> AnyFails(GoOrder(State()), failing)
    {
      rc, sent := SendGo(fdMap, riderList, failing);
    }

    /**
     * The timer part of one pass of the grsMain loop. With the ride
     * active, a report is due once reportPeriod has passed since the last
     * one, and sendReportMsg records reportClock as its time. Otherwise,
     * once time(NULL) reaches startTime, the go message goes out and the
     * ride becomes active, unless a send fails.
     */
    method TimerStep(args: CmdArgs, start: Timespec, reportClock: Timespec, now: int, failing: set<int>)
      returns (rc: int, sent: seq<int>)
      requires Valid()
      modifies this
      ensures Valid() && numFds == old(numFds) && fdMap == old(fdMap) && (rc == 0 || rc == -1)
      ensures rebuildPollFds == old(rebuildPollFds)
      ensures old(rideActive) ==>
                && rc == 0 && sent == [] && State() == old(State())
                && lastReport == (if ReportDue(start, old(lastReport), args.reportPeriod) then reportClock
                                  else old(lastReport))
      ensures !old(rideActive) && now < args.startTime ==>
                rc == 0 && sent == [] && State() == old(State()) && lastReport == old(lastReport)
      ensures !old(rideActive) && now >= args.startTime ==>
                && sent == Attempts(GoOrder(old(State())), failing)
                && (rc == -1 <==> AnyFails(GoOrder(old(State())), failing))
                && State() == old(State()).(rideActive := rc == 0)
                && lastReport == old(lastReport)
    {
      sent := [];
      rc := 0;
      if rideActive {
        if TvCmp(TvSub(start, lastReport), Timespec(args.reportPeriod, 0)) >= 0 {
          lastReport := reportClock;
        }
      } else if now >= args.startTime {
        rc, sent := SendGoMsg(failing);
        if rc == 0 {
          rideActive := true;
        }
      }
    }

    /**
     * The event half of one pass of the grsMain loop after ppoll returned
     * nFds, the number of entries with events: procFdEvents when there
     * are any. It is FdEvents over the entries as they were, which
     * changes nothing and returns 0 when no entry has events.
     */
    method PollEvents(args: CmdArgs, nFds: int, acceptRc: int, noDelayOk: bool, inputs: seq<Inbound>)
      returns (s: int)
      requires Valid() && Mirrors() && !rebuildPollFds && args.rideName.Some?
      requires nFds == Ready(pollFds[..numFds])
      requires |fdMap| + 2 <= pollFds.Length
      requires |inputs| == numFds && forall i :: 0 <= i < |inputs| ==> Readable(inputs[i])
      requires acceptRc < MAX_FD_VAL && acceptRc !in fdMap
      modifies this, pollFds
      ensures var w := FdEvents(old(State()), args.rideName.value, old(pollFds[..numFds]), inputs, acceptRc, noDelayOk);
              && s == w.s && (s == 0 || s == -1)
              && (nFds == 0 ==> w == Sweep(old(State()), 0, false))
              && State() == (if w.aborted then w.reg else w.reg.(rebuildPollFds := false))
              && (!w.aborted ==> Mirrors())
      ensures Valid() && lastReport == old(lastReport) && rideActive == old(rideActive)
    {
      ghost var entries := pollFds[..numFds];
      FdEventsRc(State(), args.rideName.value, entries, inputs, acceptRc, noDelayOk);
      if nFds > 0 {
        s := ProcFdEvents(args, acceptRc, noDelayOk, inputs);
      } else {
        FdEventsQuiet(State(), args.rideName.value, entries, inputs, acceptRc, noDelayOk);
        s := 0;
      }
    }

    /**
     * One pass of the grsMain loop: the events, then, when they returned
     * 0, the timer step on the registry they left. A nonzero return ends
     * grsMain with -1.
     */
    method Iteration(args: CmdArgs, nFds: int, acceptRc: int, noDelayOk: bool, inputs: seq<Inbound>,
                     start: Timespec, reportClock: Timespec, now: int, failing: set<int>)
      returns (rc: int)
      requires Valid() && Mirrors() && !rebuildPollFds && args.rideName.Some?
      requires nFds == Ready(pollFds[..numFds])
      requires |fdMap| + 2 <= pollFds.Length
      requires |inputs| == numFds && forall i :: 0 <= i < |inputs| ==> Readable(inputs[i])
      requires acceptRc < MAX_FD_VAL && acceptRc !in fdMap
      modifies this, pollFds
      ensures rc == 0 || rc == -1
      ensures Valid()
      ensures rc == 0 ==> !rebuildPollFds && Mirrors()
      ensures var w := FdEvents(old(State()), args.rideName.value, old(pollFds[..numFds]), inputs, acceptRc, noDelayOk);
              var mid := w.reg.(rebuildPollFds := false);
              && (nFds == 0 ==> w == Sweep(old(State()), 0, false))
              && (w.s != 0 ==>
                    rc == -1 && State() == (if w.aborted then w.reg else mid) && lastReport == old(lastReport))
              && (w.s == 0 && old(rideActive) ==>
                    && rc == 0 && State() == mid
                    && lastReport == (if ReportDue(start, old(lastReport), args.reportPeriod) then reportClock
                                      else old(lastReport)))
              && (w.s == 0 && !old(rideActive) && now < args.startTime ==>
                    rc == 0 && State() == mid && lastReport == old(lastReport))
              && (w.s == 0 && !old(rideActive) && now >= args.startTime ==>
                    && (rc == -1 <==> AnyFails(GoOrder(mid), failing))
                    && State() == mid.(rideActive := rc == 0) && lastReport == old(lastReport))
    {
      var s := PollEvents(args, nFds, acceptRc, noDelayOk, inputs);
      if s != 0 {
        return -1;
      }
      var sent;
      rc, sent := TimerStep(args, start, reportClock, now, failing);
      if rc != 0 {
        return -1;
      }
    }
  }
}
