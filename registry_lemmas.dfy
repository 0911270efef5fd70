/**
 * What the registry transitions of grs.c guarantee: each keeps the
 * registry invariant, and each does exactly what the protocol promises to
 * the fd table, the rider lists, the bib counter and the rebuild flag.
 */
module RegistryLemmas {
  import opened Options
  import opened Defs
  import opened Registry

  // ---------------------------------------------------------------------
  // List updates
  // ---------------------------------------------------------------------

  lemma LinkHeadLists(rl: RiderLists, g: Gender, a: AgeGrp, fd: int)
    requires Shaped(rl)
    ensures LinkHead(rl, g, a, fd)[g][a] == [fd] + rl[g][a]
    ensures forall g': Gender, a': AgeGrp :: (g', a') != (g, a) ==> LinkHead(rl, g, a, fd)[g'][a'] == rl[g'][a']
  {
  }

  lemma UnlinkLists(rl: RiderLists, g: Gender, a: AgeGrp, fd: int)
    requires Shaped(rl)
    ensures Unlink(rl, g, a, fd)[g][a] == Remove(rl[g][a], fd)
    ensures forall g': Gender, a': AgeGrp :: (g', a') != (g, a) ==> Unlink(rl, g, a, fd)[g'][a'] == rl[g'][a']
  {
  }

  /**
   * Replacing the record of a rider that is on no list with another that
   * is on no list keeps the table and the lists consistent.
   */
  lemma UnlistedUpdate(m: map<int, Rider>, rl: RiderLists, fd: int, rd: Rider)
    requires Shaped(rl) && TableOk(m) && MembersFit(m, rl) && AllListed(m, rl)
    requires fd in m && !Listed(m[fd]) && !Listed(rd) && rd.sd == fd && rd.state != Unknown
    ensures TableOk(m[fd := rd]) && MembersFit(m[fd := rd], rl) && AllListed(m[fd := rd], rl)
  {
    var m' := m[fd := rd];
    assert MembersFit(m', rl) by {
      forall g: Gender, a: AgeGrp, y | y in rl[g][a]
        ensures y in m' && Listed(m'[y]) && m'[y].gender == g && m'[y].ageGrp == a
      {
        assert y in m && Listed(m[y]);
      }
    }
    assert AllListed(m', rl) by {
      forall y | y in m' && Listed(m'[y]) ensures y in rl[m'[y].gender][m'[y].ageGrp] {
        assert m'[y] == m[y];
      }
    }
  }

  // ---------------------------------------------------------------------
  // procConnect
  // ---------------------------------------------------------------------

  /** procConnect keeps the invariant. */
  lemma ConnectInv(r: Registry, acceptRc: int, noDelayOk: bool)
    requires Inv(r) && acceptRc < MAX_FD_VAL && acceptRc !in r.fdMap
    ensures Inv(Connect(r, acceptRc, noDelayOk).reg)
  {
    var o := Connect(r, acceptRc, noDelayOk);
    if o.rc == 0 {
      assert o.reg == r.(fdMap := r.fdMap[acceptRc := NewRider(acceptRc)], rebuildPollFds := true);
      var m := o.reg.fdMap;
      assert forall fd :: fd in r.fdMap ==> m[fd] == r.fdMap[fd];
      assert MembersFit(m, o.reg.riderList) by {
        forall g: Gender, a: AgeGrp, fd | fd in o.reg.riderList[g][a]
          ensures fd in m && Listed(m[fd]) && m[fd].gender == g && m[fd].ageGrp == a
        {
          assert fd in r.fdMap;
        }
      }
    }
  }

  /**
   * A successful procConnect maps the new fd to a connected rider that is
   * on no list and raises the rebuild flag; a failed one changes nothing.
   */
  lemma ConnectEffect(r: Registry, acceptRc: int, noDelayOk: bool)
    requires Inv(r) && acceptRc < MAX_FD_VAL && acceptRc !in r.fdMap
    ensures var o := Connect(r, acceptRc, noDelayOk);
            && (o.rc == 0 <==> acceptRc >= 0 && noDelayOk)
            && (o.rc != 0 ==> o.rc == -1 && o.reg == r)
            && (o.rc == 0 ==>
                  && o.reg.fdMap.Keys == r.fdMap.Keys + {acceptRc}
                  && (forall fd :: fd in r.fdMap ==> o.reg.fdMap[fd] == r.fdMap[fd])
                  && o.reg.fdMap[acceptRc].state == Connected
                  && o.reg.fdMap[acceptRc].sd == acceptRc
                  && (forall g: Gender, a: AgeGrp :: acceptRc !in o.reg.riderList[g][a])
                  && o.reg.riderList == r.riderList
                  && o.reg.numRegRiders == r.numRegRiders
                  && o.reg.rebuildPollFds)
  {
    var o := Connect(r, acceptRc, noDelayOk);
    if o.rc == 0 {
      ConnectInv(r, acceptRc, noDelayOk);
      ConnectedUnlisted(o.reg, acceptRc);
    }
  }

  // ---------------------------------------------------------------------
  // procDisconnect
  // ---------------------------------------------------------------------

  /** procDisconnect keeps the invariant. */
  lemma DisconnectInv(r: Registry, fd: int)
    requires Inv(r)
    ensures Inv(Disconnect(r, fd).reg)
  {
    if fd in r.fdMap {
      var rd := r.fdMap[fd];
      var o := Disconnect(r, fd);
      var m := o.reg.fdMap;
      var rl := o.reg.riderList;
      if Listed(rd) {
        UnlinkLists(r.riderList, rd.gender, rd.ageGrp, fd);
        RemoveMembers(r.riderList[rd.gender][rd.ageGrp], fd);
      }
      forall g: Gender, a: AgeGrp ensures forall y :: y in rl[g][a] ==> y in r.riderList[g][a] && y != fd {
        if !Listed(rd) || (g, a) != (rd.gender, rd.ageGrp) {
          assert rl[g][a] == r.riderList[g][a];
          forall y | y in rl[g][a] ensures y != fd {
            if y == fd { OnOneList(r, fd, g, a); }
          }
        }
      }
      assert MembersFit(m, rl);
      assert NoDupLists(rl);
      assert AllListed(m, rl) by {
        forall y | y in m && Listed(m[y]) ensures y in rl[m[y].gender][m[y].ageGrp] {
          assert y in r.riderList[r.fdMap[y].gender][r.fdMap[y].ageGrp];
        }
      }
    }
  }

  /**
   * procDisconnect of a mapped fd clears its table entry, cuts it out of
   * its list when registered or active (the other riders keep their order),
   * leaves every other list alone and raises the rebuild flag. Of an
   * unmapped fd it returns -1 and changes nothing.
   */
  lemma DisconnectEffect(r: Registry, fd: int)
    requires Inv(r)
    ensures var o := Disconnect(r, fd);
            && (fd !in r.fdMap ==> o == Outcome(r, -1))
            && (fd in r.fdMap ==>
                  && o.rc == 0
                  && o.reg.fdMap == r.fdMap - {fd}
                  && (forall g: Gender, a: AgeGrp :: fd !in o.reg.riderList[g][a])
                  && o.reg.numRegRiders == r.numRegRiders
                  && o.reg.rebuildPollFds)
            && (fd in r.fdMap && Listed(r.fdMap[fd]) ==>
                  var g, a := r.fdMap[fd].gender, r.fdMap[fd].ageGrp;
                  exists i :: 0 <= i < |r.riderList[g][a]| && r.riderList[g][a][i] == fd &&
                              o.reg.riderList[g][a] == r.riderList[g][a][..i] + r.riderList[g][a][i + 1..])
            && (forall g: Gender, a: AgeGrp ::
                  fd in r.fdMap && (g, a) != (r.fdMap[fd].gender, r.fdMap[fd].ageGrp) ==>
                    o.reg.riderList[g][a] == r.riderList[g][a])
  {
    if fd in r.fdMap {
      var rd := r.fdMap[fd];
      DisconnectInv(r, fd);
      var o := Disconnect(r, fd);
      forall g: Gender, a: AgeGrp ensures fd !in o.reg.riderList[g][a] {
        if fd in o.reg.riderList[g][a] {
          OnOneList(o.reg, fd, g, a);
        }
      }
      if Listed(rd) {
        var l := r.riderList[rd.gender][rd.ageGrp];
        UnlinkLists(r.riderList, rd.gender, rd.ageGrp, fd);
        var i :| 0 <= i < |l| && l[i] == fd;
        RemoveAt(l, i);
      }
    }
  }

  /** A second procDisconnect of the same fd returns -1 and changes nothing. */
  lemma DisconnectTwice(r: Registry, fd: int)
    requires Shaped(r.riderList)
    ensures var o := Disconnect(r, fd);
            Disconnect(o.reg, fd) == Outcome(o.reg, -1)
  {
  }

  // ---------------------------------------------------------------------
  // procRegReqMsg
  // ---------------------------------------------------------------------

  /** The bib procRegReqMsg assigns exceeds every bib in use, so bibs stay distinct. */
  lemma RegReqBibs(r: Registry, rideName: string, fd: int, tags: RegReqTags, sendOk: bool)
    requires Shaped(r.riderList) && BibsOk(r.fdMap, r.numRegRiders)
    requires fd in r.fdMap && r.fdMap[fd].state == Connected && tags.ride == Some(rideName)
    ensures var o := RegReq(r, rideName, fd, tags, sendOk);
            BibsOk(o.reg.fdMap, o.reg.numRegRiders)
  {
    var o := RegReq(r, rideName, fd, tags, sendOk);
    var m := o.reg.fdMap;
    assert forall y :: y in r.fdMap && y != fd ==> m[y] == r.fdMap[y];
    forall f1, f2 | f1 in m && f2 in m && f1 != f2 && m[f1].bibNum != 0
      ensures m[f1].bibNum != m[f2].bibNum
    {
      if f1 != fd && f2 != fd {
        assert m[f1] == r.fdMap[f1] && m[f2] == r.fdMap[f2];
      }
    }
  }

  /** Inserting a rider that is on no list at the head of its list keeps the lists consistent. */
  lemma RegReqLists(r: Registry, rideName: string, fd: int, tags: RegReqTags)
    requires Inv(r)
    requires fd in r.fdMap && r.fdMap[fd].state == Connected && tags.ride == Some(rideName)
    ensures var o := RegReq(r, rideName, fd, tags, true);
            && MembersFit(o.reg.fdMap, o.reg.riderList)
            && NoDupLists(o.reg.riderList)
            && AllListed(o.reg.fdMap, o.reg.riderList)
  {
    var o := RegReq(r, rideName, fd, tags, true);
    var m := o.reg.fdMap;
    var rd := m[fd];
    var rl := o.reg.riderList;
    ConnectedUnlisted(r, fd);
    assert forall y :: y in r.fdMap && y != fd ==> m[y] == r.fdMap[y];
    LinkHeadLists(r.riderList, rd.gender, rd.ageGrp, fd);
    assert MembersFit(m, rl) by {
      forall g: Gender, a: AgeGrp, y | y in rl[g][a]
        ensures y in m && Listed(m[y]) && m[y].gender == g && m[y].ageGrp == a
      {
        if y != fd {
          assert y in r.riderList[g][a];
        }
      }
    }
    assert NoDups([fd] + r.riderList[rd.gender][rd.ageGrp]) by {
      var l := [fd] + r.riderList[rd.gender][rd.ageGrp];
      forall i, j | 0 <= i < j < |l| ensures l[i] != l[j] {
        if i == 0 {
          assert l[j] in r.riderList[rd.gender][rd.ageGrp];
        } else {
          assert l[i] == r.riderList[rd.gender][rd.ageGrp][i - 1];
        }
      }
    }
    assert AllListed(m, rl) by {
      forall y | y in m && Listed(m[y]) ensures y in rl[m[y].gender][m[y].ageGrp] {
        if y != fd {
          assert y in r.riderList[r.fdMap[y].gender][r.fdMap[y].ageGrp];
        }
      }
    }
  }

  /** procRegReqMsg keeps the invariant, bib numbers included. */
  lemma RegReqInv(r: Registry, rideName: string, fd: int, tags: RegReqTags, sendOk: bool)
    requires Inv(r)
    ensures Inv(RegReq(r, rideName, fd, tags, sendOk).reg)
  {
    var o := RegReq(r, rideName, fd, tags, sendOk);
    if fd in r.fdMap && r.fdMap[fd].state == Connected && tags.ride == Some(rideName) {
      RegReqBibs(r, rideName, fd, tags, sendOk);
      ConnectedUnlisted(r, fd);
      if sendOk {
        RegReqLists(r, rideName, fd, tags);
      } else {
        UnlistedUpdate(r.fdMap, r.riderList, fd, o.reg.fdMap[fd]);
      }
    }
  }

  /** procRegReqMsg neither adds nor drops a connection and leaves both flags alone. */
  lemma RegReqFrame(r: Registry, rideName: string, fd: int, tags: RegReqTags, sendOk: bool)
    requires Shaped(r.riderList)
    ensures var o := RegReq(r, rideName, fd, tags, sendOk);
            && o.reg.fdMap.Keys == r.fdMap.Keys
            && o.reg.rebuildPollFds == r.rebuildPollFds
            && o.reg.rideActive == r.rideActive
  {
  }

  /**
   * procRegReqMsg acts only on a connected rider whose "ride" value names
   * the ride. It then consumes the next bib number before the reply; if the
   * reply fails the rider stays connected and on no list, otherwise it is
   * registered and at the head of the list of its gender and age group.
   */
  lemma RegReqEffect(r: Registry, rideName: string, fd: int, tags: RegReqTags, sendOk: bool)
    requires Inv(r)
    ensures var o := RegReq(r, rideName, fd, tags, sendOk);
            var acts := fd in r.fdMap && r.fdMap[fd].state == Connected && tags.ride == Some(rideName);
            var g := GenderFromTagVal(tags.gender);
            var a := AgeToAgeGrp(AgeFromTagVal(tags.age));
            && (o.rc == 0 <==> acts && sendOk)
            && (o.rc != 0 ==> o.rc == -1)
            && (!acts ==> o.reg == r)
            && (acts ==>
                  && o.reg.numRegRiders == r.numRegRiders + 1
                  && o.reg.fdMap.Keys == r.fdMap.Keys
                  && o.reg.fdMap[fd].bibNum == o.reg.numRegRiders
                  && (forall y :: y in r.fdMap ==> r.fdMap[y].bibNum < o.reg.fdMap[fd].bibNum)
                  && o.reg.fdMap[fd].gender == g && o.reg.fdMap[fd].ageGrp == a
                  && o.reg.fdMap[fd].name == tags.name
                  && o.reg.rebuildPollFds == r.rebuildPollFds)
            && (acts && !sendOk ==>
                  && o.reg.fdMap[fd].state == Connected
                  && o.reg.riderList == r.riderList
                  && (forall g': Gender, a': AgeGrp :: fd !in o.reg.riderList[g'][a']))
            && (acts && sendOk ==>
                  && o.reg.fdMap[fd].state == Registered
                  && o.reg.riderList[g][a] == [fd] + r.riderList[g][a]
                  && (forall g': Gender, a': AgeGrp :: (g', a') != (g, a) ==>
                        o.reg.riderList[g'][a'] == r.riderList[g'][a']))
  {
    var o := RegReq(r, rideName, fd, tags, sendOk);
    if fd in r.fdMap && r.fdMap[fd].state == Connected && tags.ride == Some(rideName) {
      ConnectedUnlisted(r, fd);
      if sendOk {
        var rd := o.reg.fdMap[fd];
        LinkHeadLists(r.riderList, rd.gender, rd.ageGrp, fd);
      }
    }
  }

  // ---------------------------------------------------------------------
  // procProgUpdMsg
  // ---------------------------------------------------------------------

  /** procProgUpdMsg keeps the invariant. */
  lemma ProgUpdInv(r: Registry, fd: int, tags: ProgUpdTags)
    requires Inv(r)
    ensures Inv(ProgUpd(r, fd, tags).reg)
  {
    var o := ProgUpd(r, fd, tags);
    if o.rc == 0 {
      var m := o.reg.fdMap;
      assert forall y :: y in r.fdMap ==>
        (m[y].state == r.fdMap[y].state && m[y].gender == r.fdMap[y].gender &&
         m[y].ageGrp == r.fdMap[y].ageGrp && m[y].bibNum == r.fdMap[y].bibNum && m[y].sd == r.fdMap[y].sd);
      assert MembersFit(m, o.reg.riderList) by {
        forall g: Gender, a: AgeGrp, y | y in o.reg.riderList[g][a]
          ensures y in m && Listed(m[y]) && m[y].gender == g && m[y].ageGrp == a
        {
          assert y in r.fdMap;
        }
      }
    }
  }

  /**
   * procProgUpdMsg acts only while the ride is active and only for a
   * registered rider; it then overwrites distance and power with the "%d"
   * value of their tags when there is one, and touches nothing else.
   */
  lemma ProgUpdEffect(r: Registry, fd: int, tags: ProgUpdTags)
    ensures var o := ProgUpd(r, fd, tags);
            var acts := r.rideActive && fd in r.fdMap && r.fdMap[fd].state == Registered;
            && (o.rc == 0 <==> acts)
            && (!acts ==> o == Outcome(r, -1))
            && o.reg.fdMap.Keys == r.fdMap.Keys
            && o.reg.riderList == r.riderList && o.reg.numRegRiders == r.numRegRiders
            && o.reg.rebuildPollFds == r.rebuildPollFds && o.reg.rideActive == r.rideActive
            && (forall y :: y in r.fdMap && y != fd ==> o.reg.fdMap[y] == r.fdMap[y])
            && (acts ==>
                  && o.reg.fdMap[fd].distance == ScanIntOr(tags.distance, r.fdMap[fd].distance)
                  && o.reg.fdMap[fd].power == ScanIntOr(tags.power, r.fdMap[fd].power)
                  && o.reg.fdMap[fd].(distance := 0, power := 0) == r.fdMap[fd].(distance := 0, power := 0))
  {
  }

  /** procProgUpdMsg neither adds nor drops a connection and leaves both flags alone. */
  lemma ProgUpdFrame(r: Registry, fd: int, tags: ProgUpdTags)
    ensures var o := ProgUpd(r, fd, tags);
            && o.reg.fdMap.Keys == r.fdMap.Keys
            && o.reg.rebuildPollFds == r.rebuildPollFds
            && o.reg.rideActive == r.rideActive
  {
  }

  // ---------------------------------------------------------------------
  // procData and the procFdEvents sweep
  // ---------------------------------------------------------------------

  /** procData keeps the invariant. */
  lemma ServeInv(r: Registry, rideName: string, fd: int, req: Request)
    requires Inv(r)
    ensures Inv(Serve(r, rideName, fd, req).reg)
  {
    match req
    case Register(tags, sendOk) => RegReqInv(r, rideName, fd, tags, sendOk);
    case Progress(tags) => ProgUpdInv(r, fd, tags);
    case Rejected =>
  }

  /** procData never adds or drops a connection and leaves both flags alone. */
  lemma ServeFrame(r: Registry, rideName: string, fd: int, req: Request)
    requires Shaped(r.riderList)
    ensures var o := Serve(r, rideName, fd, req);
            && o.reg.fdMap.Keys == r.fdMap.Keys
            && o.reg.rebuildPollFds == r.rebuildPollFds
            && o.reg.rideActive == r.rideActive
  {
    match req
    case Register(tags, sendOk) => RegReqFrame(r, rideName, fd, tags, sendOk);
    case Progress(tags) => ProgUpdFrame(r, fd, tags);
    case Rejected =>
  }

  /** The sweep keeps the invariant. */
  lemma {:induction false} SweepInv(r: Registry, rideName: string, entries: seq<PollFd>,
                                    inputs: seq<Inbound>, n: nat, s: int)
    requires Inv(r) && n <= |entries| == |inputs|
    requires forall i :: 0 <= i < |inputs| ==> Readable(inputs[i])
    ensures Inv(SweepFrom(r, rideName, entries, inputs, n, s).reg)
    decreases |entries| - n
  {
    if n < |entries| {
      match EntryAction(entries[n].revents)
      case Hangup =>
        var o := Disconnect(r, entries[n].fd);
        DisconnectInv(r, entries[n].fd);
        SweepInv(o.reg, rideName, entries, inputs, n + 1, o.rc);
      case Input =>
        var o := Serve(r, rideName, entries[n].fd, RequestOf(inputs[n]));
        ServeInv(r, rideName, entries[n].fd, RequestOf(inputs[n]));
        SweepInv(o.reg, rideName, entries, inputs, n + 1, o.rc);
      case Unexpected =>
      case Idle =>
        SweepInv(r, rideName, entries, inputs, n + 1, s);
    }
  }

  /** The fds of the entries from n on whose revents report a hangup. */
  function HangupFds(entries: seq<PollFd>, n: nat): set<int>
    requires n <= |entries|
    decreases |entries| - n
  {
    if n == |entries| then {}
    else (if EntryAction(entries[n].revents) == Hangup then {entries[n].fd} else {}) + HangupFds(entries, n + 1)
  }

  /**
   * A sweep that runs to the end drops exactly the hung-up fds from the
   * table, and the rebuild flag ends up raised exactly when it was already
   * raised or the table lost a connection.
   */
  lemma {:induction false} SweepKeys(r: Registry, rideName: string, entries: seq<PollFd>,
                                     inputs: seq<Inbound>, n: nat, s: int)
    requires Shaped(r.riderList) && n <= |entries| == |inputs|
    requires forall i :: 0 <= i < |inputs| ==> Readable(inputs[i])
    ensures var w := SweepFrom(r, rideName, entries, inputs, n, s);
            && w.reg.fdMap.Keys <= r.fdMap.Keys
            && w.reg.rideActive == r.rideActive
            && (w.reg.rebuildPollFds <==> r.rebuildPollFds || w.reg.fdMap.Keys != r.fdMap.Keys)
            && (!w.aborted ==> w.reg.fdMap.Keys == r.fdMap.Keys - HangupFds(entries, n))
    decreases |entries| - n
  {
    if n < |entries| {
      match EntryAction(entries[n].revents)
      case Hangup =>
        var o := Disconnect(r, entries[n].fd);
        SweepKeys(o.reg, rideName, entries, inputs, n + 1, o.rc);
      case Input =>
        var o := Serve(r, rideName, entries[n].fd, RequestOf(inputs[n]));
        ServeFrame(r, rideName, entries[n].fd, RequestOf(inputs[n]));
        SweepKeys(o.reg, rideName, entries, inputs, n + 1, o.rc);
      case Unexpected =>
      case Idle =>
        SweepKeys(r, rideName, entries, inputs, n + 1, s);
    }
  }

  /** A sweep over entries without events returns the status it started with. */
  lemma {:induction false} SweepIdle(r: Registry, rideName: string, entries: seq<PollFd>,
                                     inputs: seq<Inbound>, n: nat, s: int)
    requires Shaped(r.riderList) && n <= |entries| == |inputs|
    requires forall i :: 0 <= i < |inputs| ==> Readable(inputs[i])
    requires forall i :: n <= i < |entries| ==> entries[i].revents == 0
    ensures SweepFrom(r, rideName, entries, inputs, n, s) == Sweep(r, s, false)
    decreases |entries| - n
  {
    if n < |entries| {
      SweepIdle(r, rideName, entries, inputs, n + 1, s);
    }
  }

  /** Entry k is the last one from n on whose revents are nonzero. */
  predicate LastActive(entries: seq<PollFd>, n: nat, k: nat) {
    && n <= k < |entries| && entries[k].revents != 0
    && forall i :: k < i < |entries| ==> entries[i].revents == 0
  }

  /** What the sweep does at a serviced entry: procDisconnect on a hangup, procData otherwise. */
  function Service(r: Registry, rideName: string, entries: seq<PollFd>, inputs: seq<Inbound>,
                   k: nat): (o: Outcome)
    requires Shaped(r.riderList) && k < |entries| == |inputs|
    requires forall i :: 0 <= i < |inputs| ==> Readable(inputs[i])
    ensures o.rc == 0 || o.rc == -1
  {
    if EntryAction(entries[k].revents) == Hangup then Disconnect(r, entries[k].fd)
    else Serve(r, rideName, entries[k].fd, RequestOf(inputs[k]))
  }

  /**
   * The sweep from n over all entries is the sweep from n over the first
   * k, continued from k unless it stopped early.
   */
  lemma {:induction false} SweepSplit(r: Registry, rideName: string, entries: seq<PollFd>,
                                      inputs: seq<Inbound>, n: nat, k: nat, s: int)
    requires Shaped(r.riderList) && n <= k <= |entries| == |inputs|
    requires forall i :: 0 <= i < |inputs| ==> Readable(inputs[i])
    ensures var p := SweepFrom(r, rideName, entries[..k], inputs[..k], n, s);
            SweepFrom(r, rideName, entries, inputs, n, s)
              == if p.aborted then p else SweepFrom(p.reg, rideName, entries, inputs, k, p.s)
    decreases k - n
  {
    if n < k {
      assert entries[..k][n] == entries[n] && inputs[..k][n] == inputs[n];
      match EntryAction(entries[n].revents)
      case Hangup =>
        var o := Disconnect(r, entries[n].fd);
        SweepSplit(o.reg, rideName, entries, inputs, n + 1, k, o.rc);
      case Input =>
        var o := Serve(r, rideName, entries[n].fd, RequestOf(inputs[n]));
        SweepSplit(o.reg, rideName, entries, inputs, n + 1, k, o.rc);
      case Unexpected =>
      case Idle =>
        SweepSplit(r, rideName, entries, inputs, n + 1, k, s);
    }
  }

  /**
   * The status of a sweep that runs to the end: with k the last entry that
   * has events, the sweep ends in the registry and the status of servicing
   * entry k, applied to the registry the sweep had reached there.
   */
  lemma SweepStatus(r: Registry, rideName: string, entries: seq<PollFd>,
                    inputs: seq<Inbound>, n: nat, k: nat, s: int)
    requires Shaped(r.riderList) && n <= |entries| == |inputs|
    requires forall i :: 0 <= i < |inputs| ==> Readable(inputs[i])
    requires LastActive(entries, n, k)
    ensures var w := SweepFrom(r, rideName, entries, inputs, n, s);
            var p := SweepFrom(r, rideName, entries[..k], inputs[..k], n, s);
            !w.aborted ==>
              && !p.aborted && EntryAction(entries[k].revents) != Unexpected
              && var o := Service(p.reg, rideName, entries, inputs, k);
                 w == Sweep(o.reg, o.rc, false)
  {
    var p := SweepFrom(r, rideName, entries[..k], inputs[..k], n, s);
    SweepSplit(r, rideName, entries, inputs, n, k, s);
    if !p.aborted {
      match EntryAction(entries[k].revents)
      case Hangup =>
        var o := Disconnect(p.reg, entries[k].fd);
        SweepIdle(o.reg, rideName, entries, inputs, k + 1, o.rc);
      case Input =>
        var o := Serve(p.reg, rideName, entries[k].fd, RequestOf(inputs[k]));
        SweepIdle(o.reg, rideName, entries, inputs, k + 1, o.rc);
      case Unexpected =>
      case Idle =>
    }
  }

  /** The sweep's status stays 0 or -1 when it starts as one of them. */
  lemma {:induction false} SweepRc(r: Registry, rideName: string, entries: seq<PollFd>,
                                   inputs: seq<Inbound>, n: nat, s: int)
    requires Shaped(r.riderList) && n <= |entries| == |inputs|
    requires forall i :: 0 <= i < |inputs| ==> Readable(inputs[i])
    requires s == 0 || s == -1
    ensures var w := SweepFrom(r, rideName, entries, inputs, n, s); w.s == 0 || w.s == -1
    decreases |entries| - n
  {
    if n < |entries| {
      match EntryAction(entries[n].revents)
      case Hangup =>
        var o := Disconnect(r, entries[n].fd);
        SweepRc(o.reg, rideName, entries, inputs, n + 1, o.rc);
      case Input =>
        var o := Serve(r, rideName, entries[n].fd, RequestOf(inputs[n]));
        SweepRc(o.reg, rideName, entries, inputs, n + 1, o.rc);
      case Unexpected =>
      case Idle =>
        SweepRc(r, rideName, entries, inputs, n + 1, s);
    }
  }

  /** procFdEvents returns 0 or -1. */
  lemma FdEventsRc(r: Registry, rideName: string, entries: seq<PollFd>, inputs: seq<Inbound>,
                   acceptRc: int, noDelayOk: bool)
    requires Shaped(r.riderList) && 1 <= |entries| == |inputs|
    requires forall i :: 0 <= i < |inputs| ==> Readable(inputs[i])
    requires acceptRc < MAX_FD_VAL && acceptRc !in r.fdMap
    ensures var w := FdEvents(r, rideName, entries, inputs, acceptRc, noDelayOk); w.s == 0 || w.s == -1
  {
    var c := if entries[0].revents & POLLIN != 0 then Connect(r, acceptRc, noDelayOk) else Outcome(r, 0);
    if c.rc == 0 {
      SweepRc(c.reg, rideName, entries, inputs, 1, 0);
    }
  }

  /**
   * procFdEvents returns the status of the last connected entry it
   * services: when that entry delivered a register or progress request
   * and the pass ran to the end, it returns 0 whatever earlier entries
   * returned; when no connected entry has events, it returns 0 after a
   * successful or skipped accept.
   */
  lemma FdEventsLastServed(r: Registry, rideName: string, entries: seq<PollFd>, inputs: seq<Inbound>,
                           acceptRc: int, noDelayOk: bool, k: nat)
    requires Shaped(r.riderList) && 1 <= |entries| == |inputs|
    requires forall i :: 0 <= i < |inputs| ==> Readable(inputs[i])
    requires acceptRc < MAX_FD_VAL && acceptRc !in r.fdMap
    ensures var w := FdEvents(r, rideName, entries, inputs, acceptRc, noDelayOk);
            && (&& LastActive(entries, 1, k) && EntryAction(entries[k].revents) == Input
                && !RequestOf(inputs[k]).Rejected? && !w.aborted
                ==> w.s == 0)
            && ((forall i :: 1 <= i < |entries| ==> entries[i].revents == 0) && !w.aborted ==> w.s == 0)
  {
    var c := if entries[0].revents & POLLIN != 0 then Connect(r, acceptRc, noDelayOk) else Outcome(r, 0);
    if c.rc == 0 {
      if LastActive(entries, 1, k) {
        SweepStatus(c.reg, rideName, entries, inputs, 1, k, 0);
      }
      if forall i :: 1 <= i < |entries| ==> entries[i].revents == 0 {
        SweepIdle(c.reg, rideName, entries, inputs, 1, 0);
      }
    }
  }

  /** procFdEvents keeps the invariant. */
  lemma FdEventsInv(r: Registry, rideName: string, entries: seq<PollFd>, inputs: seq<Inbound>,
                    acceptRc: int, noDelayOk: bool)
    requires Inv(r) && 1 <= |entries| == |inputs|
    requires forall i :: 0 <= i < |inputs| ==> Readable(inputs[i])
    requires acceptRc < MAX_FD_VAL && acceptRc !in r.fdMap
    ensures Inv(FdEvents(r, rideName, entries, inputs, acceptRc, noDelayOk).reg)
  {
    if entries[0].revents & POLLIN != 0 {
      var c := Connect(r, acceptRc, noDelayOk);
      ConnectInv(r, acceptRc, noDelayOk);
      if c.rc == 0 {
        SweepInv(c.reg, rideName, entries, inputs, 1, 0);
      }
    } else {
      SweepInv(r, rideName, entries, inputs, 1, 0);
    }
  }

  /**
   * procFdEvents: a failed connect returns -1 with nothing changed;
   * otherwise, when no entry reports an unexpected event, the table gains
   * the accepted fd (when entry 0 was readable) and loses the hung-up fds.
   */
  lemma FdEventsKeys(r: Registry, rideName: string, entries: seq<PollFd>, inputs: seq<Inbound>,
                     acceptRc: int, noDelayOk: bool)
    requires Inv(r) && 1 <= |entries| == |inputs|
    requires forall i :: 0 <= i < |inputs| ==> Readable(inputs[i])
    requires acceptRc < MAX_FD_VAL && acceptRc !in r.fdMap
    ensures var w := FdEvents(r, rideName, entries, inputs, acceptRc, noDelayOk);
            var connect := entries[0].revents & POLLIN != 0;
            && (connect && (acceptRc < 0 || !noDelayOk) ==> w == Sweep(r, -1, true))
            && (w.aborted ==> w.s == -1)
            && w.reg.rideActive == r.rideActive
            && (!r.rebuildPollFds && !w.reg.rebuildPollFds ==> w.reg.fdMap.Keys == r.fdMap.Keys)
            && (!w.aborted ==>
                  w.reg.fdMap.Keys == (r.fdMap.Keys + (if connect then {acceptRc} else {})) - HangupFds(entries, 1))
  {
    if entries[0].revents & POLLIN != 0 {
      var c := Connect(r, acceptRc, noDelayOk);
      if c.rc == 0 {
        SweepKeys(c.reg, rideName, entries, inputs, 1, 0);
      }
    } else {
      SweepKeys(r, rideName, entries, inputs, 1, 0);
    }
  }

  /**
   * When ppoll reports no events at all, procFdEvents would change
   * nothing and return 0, so grsMain may skip it.
   */
  lemma FdEventsQuiet(r: Registry, rideName: string, entries: seq<PollFd>, inputs: seq<Inbound>,
                      acceptRc: int, noDelayOk: bool)
    requires Shaped(r.riderList) && 1 <= |entries| == |inputs|
    requires forall i :: 0 <= i < |inputs| ==> Readable(inputs[i])
    requires acceptRc < MAX_FD_VAL && acceptRc !in r.fdMap
    requires forall i :: 0 <= i < |entries| ==> entries[i].revents == 0
    ensures FdEvents(r, rideName, entries, inputs, acceptRc, noDelayOk) == Sweep(r, 0, false)
  {
    SweepIdle(r, rideName, entries, inputs, 1, 0);
  }
}
