/**
 * The rider registry of grs.c as values: the fd -> Rider table, the
 * per-gender, per-age-group rider lists and the counters, with one pure
 * transition per protocol operation. The server class in server.dfy keeps
 * these fields and is proved to follow these transitions.
 */
module Registry {
  import opened Options
  import opened Defs
  import opened CLib
  import opened Json

  // ---------------------------------------------------------------------
  // Tag value helpers
  // ---------------------------------------------------------------------

  /** genderFromTagVal. */
  function GenderFromTagVal(tagVal: Option<string>): (g: Gender)
    ensures g == MALE <==> tagVal == Some("male")
    ensures g == FEMALE <==> tagVal == Some("female")
    ensures g == NON_BINARY <==> tagVal == Some("nonBinary")
  {
    if tagVal.Some? then
      if tagVal.value == "male" then MALE
      else if tagVal.value == "female" then FEMALE
      else if tagVal.value == "nonBinary" then NON_BINARY
      else UNSPEC
    else UNSPEC
  }

  /** The gender names a regReq message carries. */
  function GenderName(g: Gender): string {
    if g == FEMALE then "female"
    else if g == MALE then "male"
    else if g == NON_BINARY then "nonBinary"
    else "unspec"
  }

  /** Every gender survives the trip through its name. */
  lemma GenderNameRoundTrip(g: Gender)
    ensures GenderFromTagVal(Some(GenderName(g))) == g
  {
    if g == UNSPEC {
      assert "unspec"[0] != "male"[0] && "unspec"[0] != "female"[0] && "unspec"[0] != "nonBinary"[0];
    }
  }

  /** ageFromTagVal: the leading "%d" integer of the value, 0 without one. */
  function AgeFromTagVal(tagVal: Option<string>): (age: int)
    ensures tagVal.None? ==> age == 0
  {
    match tagVal
    case None => 0
    case Some(s) => ScanInt(s).GetOr(0)
  }

  /** A printed age followed by non-digit text reads back as that age. */
  lemma AgeFromTagValRoundTrip(age: int, rest: string)
    requires rest == [] || !IsDigit(rest[0])
    ensures AgeFromTagVal(Some(Itoa(age) + rest)) == age
  {
    ScanIntItoa(age, rest);
  }

  /**
   * A value made of white space, an optional sign and digits, followed by
   * text that does not continue the digits, gives their signed value.
   */
  lemma AgeFromTagValValue(w: string, sg: string, d: string, rest: string)
    requires AllSpace(w) && SignText(sg) && |d| > 0 && AllDigits(d)
    requires rest == [] || !IsDigit(rest[0])
    ensures AgeFromTagVal(Some(w + sg + d + rest)) == Signed(sg, d)
  {
    ScanIntValue(w, sg, d, rest);
  }

  /** A value with no digit after its leading white space and sign gives age 0. */
  lemma AgeFromTagValNoNumber(w: string, sg: string, rest: string)
    requires AllSpace(w) && SignText(sg)
    requires rest == [] || !IsDigit(rest[0])
    requires sg == "" && rest != [] ==> !IsSpace(rest[0]) && rest[0] != '-' && rest[0] != '+'
    ensures AgeFromTagVal(Some(w + sg + rest)) == 0
  {
    ScanIntNoNumber(w, sg, rest);
  }

  /** The "%d" value of a tag, or the current value when the tag or the number is missing. */
  function ScanIntOr(tagVal: Option<string>, current: int): (v: int)
    ensures tagVal.None? ==> v == current
    ensures tagVal.Some? && ScanInt(tagVal.value).None? ==> v == current
  {
    match tagVal
    case None => current
    case Some(s) => ScanInt(s).GetOr(current)
  }

  /**
   * ageToAgeGrp: undef outside 1..99, u19 for 1..18, u35 for 19..34 and
   * one group per five years from 35 on.
   */
  function AgeToAgeGrp(age: int): (grp: AgeGrp)
    ensures grp == UNDEF <==> age <= 0 || age > 99
    ensures 1 <= age <= 18 ==> grp == U19
    ensures 19 <= age <= 34 ==> grp == U35
    ensures 35 <= age <= 99 ==>
              U40 <= grp <= U100 && 35 + 5 * (grp - U40) <= age <= 39 + 5 * (grp - U40)
  {
    if 0 < age <= 18 then U19
    else if 18 < age <= 34 then U35
    else if 34 < age <= 39 then U40
    else if 39 < age <= 44 then U45
    else if 44 < age <= 49 then U50
    else if 49 < age <= 54 then U55
    else if 54 < age <= 59 then U60
    else if 59 < age <= 64 then U65
    else if 64 < age <= 69 then U70
    else if 69 < age <= 74 then U75
    else if 74 < age <= 79 then U80
    else if 79 < age <= 84 then U85
    else if 84 < age <= 89 then U90
    else if 89 < age <= 94 then U95
    else if 94 < age <= 99 then U100
    else UNDEF
  }

  // ---------------------------------------------------------------------
  // Rider lists
  // ---------------------------------------------------------------------

  predicate NoDups(s: seq<int>) {
    forall i, j :: 0 <= i < j < |s| ==> s[i] != s[j]
  }

  /** TAILQ_REMOVE: unlink the node of x. */
  function Remove(s: seq<int>, x: int): (r: seq<int>)
    ensures |r| <= |s|
  {
    if s == [] then []
    else if s[0] == x then s[1..]
    else [s[0]] + Remove(s[1..], x)
  }

  /** Removing the element at i leaves the others in their order. */
  lemma {:induction false} RemoveAt(s: seq<int>, i: nat)
    requires NoDups(s) && i < |s|
    ensures Remove(s, s[i]) == s[..i] + s[i + 1..]
  {
    if i > 0 {
      assert NoDups(s[1..]);
      RemoveAt(s[1..], i - 1);
      assert s[1..][..i - 1] == s[1..i];
      assert s[1..][i..] == s[i + 1..];
    }
  }

  /** Removing an absent element changes nothing. */
  lemma {:induction false} RemoveAbsent(s: seq<int>, x: int)
    requires x !in s
    ensures Remove(s, x) == s
  {
    if s != [] {
      RemoveAbsent(s[1..], x);
    }
  }

  /** Cutting out the element at i keeps exactly the others. */
  lemma SpliceMembers(s: seq<int>, i: nat)
    requires NoDups(s) && i < |s|
    ensures forall y :: y in s[..i] + s[i + 1..] <==> y in s && y != s[i]
  {
    var r := s[..i] + s[i + 1..];
    forall y ensures y in r <==> y in s && y != s[i] {
      if y in s && y != s[i] {
        var k :| 0 <= k < |s| && s[k] == y;
        if k < i { assert r[k] == y; } else { assert r[k - 1] == y; }
      }
      if y in r {
        var k :| 0 <= k < |r| && r[k] == y;
        if k < i { assert s[k] == y; } else { assert s[k + 1] == y; }
      }
    }
  }

  /** Cutting out one element keeps a list free of duplicates. */
  lemma SpliceNoDups(s: seq<int>, i: nat)
    requires NoDups(s) && i < |s|
    ensures NoDups(s[..i] + s[i + 1..])
  {
    var r := s[..i] + s[i + 1..];
    forall p, q | 0 <= p < q < |r| ensures r[p] != r[q] {
      var p' := if p < i then p else p + 1;
      var q' := if q < i then q else q + 1;
      assert r[p] == s[p'] && r[q] == s[q'];
    }
  }

  /** After removal x is gone, everything else stays, and there are still no duplicates. */
  lemma RemoveMembers(s: seq<int>, x: int)
    requires NoDups(s)
    ensures forall y :: y in Remove(s, x) <==> y in s && y != x
    ensures NoDups(Remove(s, x))
  {
    if x in s {
      var i :| 0 <= i < |s| && s[i] == x;
      RemoveAt(s, i);
      SpliceMembers(s, i);
      SpliceNoDups(s, i);
    } else {
      RemoveAbsent(s, x);
    }
  }

  type RiderLists = seq<seq<seq<int>>>

  /** GenderMax x AgeGrpMax lists. */
  predicate Shaped(rl: RiderLists) {
    |rl| == GENDER_MAX && forall g :: 0 <= g < GENDER_MAX ==> |rl[g]| == AGE_GRP_MAX
  }

  /** The TAILQ_INIT'ed table: every list empty. */
  function EmptyLists(): (rl: RiderLists)
    ensures Shaped(rl)
    ensures forall g: Gender, a: AgeGrp :: rl[g][a] == []
  {
    seq(GENDER_MAX, _ => seq(AGE_GRP_MAX, _ => []))
  }

  /** TAILQ_INSERT_HEAD into list [g][a]. */
  function LinkHead(rl: RiderLists, g: Gender, a: AgeGrp, fd: int): (r: RiderLists)
    requires Shaped(rl)
    ensures Shaped(r)
  {
    rl[g := rl[g][a := [fd] + rl[g][a]]]
  }

  /** TAILQ_REMOVE from list [g][a]. */
  function Unlink(rl: RiderLists, g: Gender, a: AgeGrp, fd: int): (r: RiderLists)
    requires Shaped(rl)
    ensures Shaped(r)
  {
    rl[g := rl[g][a := Remove(rl[g][a], fd)]]
  }

  // ---------------------------------------------------------------------
  // Registry state and its invariant
  // ---------------------------------------------------------------------

  /** The fields of Grs and the fd table that the protocol operations change. */
  datatype Registry = Registry(
    fdMap: map<int, Rider>,
    riderList: RiderLists,
    numRegRiders: int,
    rideActive: bool,
    rebuildPollFds: bool)

  /** The states in which a rider sits on a rider list. */
  predicate Listed(rd: Rider) {
    rd.state == Registered || rd.state == Active
  }

  /** Mapped fds fit the table, each rider records its own fd, and no rider is in state unknown. */
  predicate TableOk(m: map<int, Rider>) {
    forall fd :: fd in m ==> 0 <= fd < MAX_FD_VAL && m[fd].sd == fd && m[fd].state != Unknown
  }

  /** Every fd on list [g][a] maps to a registered or active rider of gender g and age group a. */
  predicate MembersFit(m: map<int, Rider>, rl: RiderLists)
    requires Shaped(rl)
  {
    forall g: Gender, a: AgeGrp, fd :: fd in rl[g][a] ==>
      fd in m && Listed(m[fd]) && m[fd].gender == g && m[fd].ageGrp == a
  }

  predicate NoDupLists(rl: RiderLists)
    requires Shaped(rl)
  {
    forall g: Gender, a: AgeGrp :: NoDups(rl[g][a])
  }

  /** Every registered or active rider is on the list of its gender and age group. */
  predicate AllListed(m: map<int, Rider>, rl: RiderLists)
    requires Shaped(rl)
  {
    forall fd :: fd in m && Listed(m[fd]) ==> fd in rl[m[fd].gender][m[fd].ageGrp]
  }

  /**
   * Bib numbers come from the counter: none exceeds it, every listed rider
   * has one, and no two riders share a nonzero one.
   */
  predicate BibsOk(m: map<int, Rider>, n: int) {
    && 0 <= n
    && (forall fd :: fd in m ==> 0 <= m[fd].bibNum <= n)
    && (forall fd :: fd in m && Listed(m[fd]) ==> 1 <= m[fd].bibNum)
    && (forall f1, f2 :: f1 in m && f2 in m && f1 != f2 && m[f1].bibNum != 0 ==>
          m[f1].bibNum != m[f2].bibNum)
  }

  predicate Inv(r: Registry) {
    && Shaped(r.riderList)
    && TableOk(r.fdMap)
    && MembersFit(r.fdMap, r.riderList)
    && NoDupLists(r.riderList)
    && AllListed(r.fdMap, r.riderList)
    && BibsOk(r.fdMap, r.numRegRiders)
  }

  /** The registry grsMain starts from. */
  function Initial(startTime: int): (r: Registry)
    ensures Inv(r) && r.fdMap == map[] && r.numRegRiders == 0
    ensures r.rideActive <==> startTime == 0
  {
    Registry(map[], EmptyLists(), 0, startTime == 0, false)
  }

  /** A rider is on at most one list, at most once: the one its gender and age group name. */
  lemma OnOneList(r: Registry, fd: int, g: Gender, a: AgeGrp)
    requires Inv(r) && fd in r.riderList[g][a]
    ensures fd in r.fdMap && Listed(r.fdMap[fd])
    ensures g == r.fdMap[fd].gender && a == r.fdMap[fd].ageGrp
    ensures forall i, j :: 0 <= i < j < |r.riderList[g][a]| ==>
              r.riderList[g][a][i] != r.riderList[g][a][j]
  {
  }

  /** A connected rider is on no list. */
  lemma ConnectedUnlisted(r: Registry, fd: int)
    requires Inv(r) && fd in r.fdMap && r.fdMap[fd].state == Connected
    ensures forall g: Gender, a: AgeGrp :: fd !in r.riderList[g][a]
  {
  }

  // ---------------------------------------------------------------------
  // Transitions
  // ---------------------------------------------------------------------

  /** The new registry and the C return code of an operation. */
  datatype Outcome = Outcome(reg: Registry, rc: int)

  /** The calloc'ed Rider procConnect fills in. */
  function NewRider(sd: int): (rd: Rider)
    ensures rd.sd == sd && rd.state == Connected && rd.bibNum == 0
  {
    Rider(UNDEF, 0, 0, 0, 0, UNSPEC, None, sd, Connected)
  }

  /**
   * procConnect, given what accept returned and whether TCP_NODELAY could
   * be set. The fd indexes the table without a check, so it must fit.
   */
  function Connect(r: Registry, acceptRc: int, noDelayOk: bool): (o: Outcome)
    requires acceptRc < MAX_FD_VAL && acceptRc !in r.fdMap
    ensures o.rc == 0 <==> acceptRc >= 0 && noDelayOk
    ensures o.rc != 0 ==> o == Outcome(r, -1)
    ensures o.rc == 0 ==> && o.reg.fdMap.Keys == r.fdMap.Keys + {acceptRc}
                          && o.reg.fdMap[acceptRc].state == Connected
                          && o.reg.riderList == r.riderList && o.reg.rebuildPollFds
  {
    if acceptRc < 0 || !noDelayOk then Outcome(r, -1)
    else Outcome(r.(fdMap := r.fdMap[acceptRc := NewRider(acceptRc)], rebuildPollFds := true), 0)
  }

  /** procDisconnect. */
  function Disconnect(r: Registry, fd: int): (o: Outcome)
    requires Shaped(r.riderList)
    ensures Shaped(o.reg.riderList)
  {
    if fd !in r.fdMap then Outcome(r, -1)
    else
      var rd := r.fdMap[fd];
      var rl := if Listed(rd) then Unlink(r.riderList, rd.gender, rd.ageGrp, fd) else r.riderList;
      Outcome(r.(fdMap := r.fdMap - {fd}, riderList := rl, rebuildPollFds := true), 0)
  }

  /** The tag values procRegReqMsg reads. */
  datatype RegReqTags = RegReqTags(ride: Option<string>, name: Option<string>,
                                   gender: Option<string>, age: Option<string>)

  function RegReqTagsOf(mem: seq<char>, obj: JsonObject): RegReqTags
    requires WellFormed(mem, obj) && HasNul(mem, obj.end)
  {
    RegReqTags(TagValue(mem, obj, "ride"), TagValue(mem, obj, "name"),
               TagValue(mem, obj, "gender"), TagValue(mem, obj, "age"))
  }

  /** The rider after a valid regReq: the message's fields and the next bib number. */
  function Registering(rd: Rider, tags: RegReqTags, bib: int): (rd': Rider)
    ensures rd'.sd == rd.sd && rd'.state == rd.state && rd'.bibNum == bib
    ensures rd'.gender == GenderFromTagVal(tags.gender) && rd'.age == AgeFromTagVal(tags.age)
    ensures rd'.ageGrp == AgeToAgeGrp(rd'.age) && rd'.name == tags.name
  {
    var age := AgeFromTagVal(tags.age);
    rd.(name := tags.name, gender := GenderFromTagVal(tags.gender), age := age,
        ageGrp := AgeToAgeGrp(age), bibNum := bib)
  }

  /**
   * procRegReqMsg, given the regReq tag values, the ride name and whether
   * the regResp send succeeded. strcmp against the ride name needs one.
   */
  function RegReq(r: Registry, rideName: string, fd: int, tags: RegReqTags, sendOk: bool): (o: Outcome)
    requires Shaped(r.riderList)
    ensures Shaped(o.reg.riderList)
  {
    if fd !in r.fdMap || r.fdMap[fd].state != Connected then Outcome(r, -1)
    else if tags.ride != Some(rideName) then Outcome(r, -1)
    else
      var rd := Registering(r.fdMap[fd], tags, r.numRegRiders + 1);
      if !sendOk then
        Outcome(r.(fdMap := r.fdMap[fd := rd], numRegRiders := r.numRegRiders + 1), -1)
      else
        var reg := rd.(state := Registered);
        Outcome(r.(fdMap := r.fdMap[fd := reg], numRegRiders := r.numRegRiders + 1,
                   riderList := LinkHead(r.riderList, reg.gender, reg.ageGrp, fd)), 0)
  }

  /** The tag values procProgUpdMsg reads. */
  datatype ProgUpdTags = ProgUpdTags(distance: Option<string>, power: Option<string>)

  function ProgUpdTagsOf(mem: seq<char>, obj: JsonObject): ProgUpdTags
    requires WellFormed(mem, obj) && HasNul(mem, obj.end)
  {
    ProgUpdTags(TagValue(mem, obj, "distance"), TagValue(mem, obj, "power"))
  }

  /** procProgUpdMsg. */
  function ProgUpd(r: Registry, fd: int, tags: ProgUpdTags): (o: Outcome)
    ensures o.rc == 0 <==> r.rideActive && fd in r.fdMap && r.fdMap[fd].state == Registered
    ensures o.rc != 0 ==> o == Outcome(r, -1)
    ensures o.reg.fdMap.Keys == r.fdMap.Keys && o.reg.riderList == r.riderList
  {
    if !r.rideActive || fd !in r.fdMap || r.fdMap[fd].state != Registered then Outcome(r, -1)
    else
      var rd := r.fdMap[fd];
      var rd' := rd.(distance := ScanIntOr(tags.distance, rd.distance),
                     power := ScanIntOr(tags.power, rd.power));
      Outcome(r.(fdMap := r.fdMap[fd := rd']), 0)
  }

  /**
   * What one read delivers: read's return value, the memory from dataBuf
   * on (the received bytes and whatever follows them), and the outcome of
   * the regResp send a regReq in it would trigger.
   */
  datatype Inbound = Inbound(len: int, mem: seq<char>, sendOk: bool)

  /**
   * A read result procData can scan without leaving memory: at most the
   * 1000-byte buffer, memory ending in a NUL, and any '{' strchr finds
   * within the received bytes.
   */
  predicate Readable(inb: Inbound) {
    && inb.len <= 1000 && |inb.mem| > 0 && inb.mem[|inb.mem| - 1] == NUL
    && (inb.len > 0 ==> SearchDefined(inb.mem, inb.len))
  }

  lemma LastNul(mem: seq<char>, k: nat)
    requires k < |mem| && mem[|mem| - 1] == NUL
    ensures HasNul(mem, k)
  {
  }

  /** How procData classifies what it read. */
  datatype Message = ReadFailed | NoObject | NoType | Unsupported
                   | RegReqMsg(obj: JsonObject) | ProgUpdMsg(obj: JsonObject)

  function Classify(inb: Inbound): (msg: Message)
    requires Readable(inb)
    ensures msg.RegReqMsg? || msg.ProgUpdMsg? ==>
              WellFormed(inb.mem, msg.obj) && HasNul(inb.mem, msg.obj.end)
    ensures msg == ReadFailed <==> inb.len <= 0
  {
    if inb.len <= 0 then ReadFailed
    else match ObjectSpan(inb.mem, inb.len)
      case None => NoObject
      case Some(obj) =>
        LastNul(inb.mem, obj.end);
        match TagPos(inb.mem, obj, "type")
        case None => NoType
        case Some(t) =>
          if RegionIs(inb.mem, t, "\"regReq\"") then RegReqMsg(obj)
          else if RegionIs(inb.mem, t, "\"progUpd\"") then ProgUpdMsg(obj)
          else Unsupported
  }

  /** What procData hands on: nothing, or a handler with the tag values it reads. */
  datatype Request = Rejected
                   | Register(regTags: RegReqTags, sendOk: bool)
                   | Progress(progTags: ProgUpdTags)

  function RequestOf(inb: Inbound): (req: Request)
    requires Readable(inb)
    ensures req.Rejected? <==> !(Classify(inb).RegReqMsg? || Classify(inb).ProgUpdMsg?)
  {
    match Classify(inb)
    case RegReqMsg(obj) => Register(RegReqTagsOf(inb.mem, obj), inb.sendOk)
    case ProgUpdMsg(obj) => Progress(ProgUpdTagsOf(inb.mem, obj))
    case _ => Rejected
  }

  /**
   * procData on a read whose request is req: -1 with nothing changed for
   * a failed read, no object, no "type" or an unsupported type; otherwise
   * the handler's effect and 0, whatever the handler returned.
   */
  function Serve(r: Registry, rideName: string, fd: int, req: Request): (o: Outcome)
    requires Shaped(r.riderList)
    ensures Shaped(o.reg.riderList)
    ensures o.rc == 0 <==> !req.Rejected?
    ensures o.rc != 0 ==> o == Outcome(r, -1)
  {
    match req
    case Register(tags, sendOk) => Outcome(RegReq(r, rideName, fd, tags, sendOk).reg, 0)
    case Progress(tags) => Outcome(ProgUpd(r, fd, tags).reg, 0)
    case Rejected => Outcome(r, -1)
  }

  /** What procFdEvents does with a connected socket's revents. */
  datatype Action = Hangup | Input | Unexpected | Idle

  function EntryAction(revents: bv16): (act: Action)
    ensures act == Hangup <==> revents & (POLLRDHUP | POLLHUP) != 0
    ensures act == Input <==> revents & (POLLRDHUP | POLLHUP) == 0 && revents & POLLIN != 0
    ensures act == Idle <==> revents == 0
  {
    if revents & (POLLRDHUP | POLLHUP) != 0 then Hangup
    else if revents & POLLIN != 0 then Input
    else if revents != 0 then Unexpected
    else Idle
  }

  /** The sweep over the connected sockets: the registry, the status s and whether it stopped early. */
  datatype Sweep = Sweep(reg: Registry, s: int, aborted: bool)

  /**
   * The loop of procFdEvents from entry n on: a hangup disconnects, input
   * is processed, another nonzero revents stops the sweep with -1, and s
   * holds the status of the last entry serviced.
   */
  function SweepFrom(r: Registry, rideName: string, entries: seq<PollFd>, inputs: seq<Inbound>,
                     n: nat, s: int): (w: Sweep)
    requires Shaped(r.riderList) && n <= |entries| == |inputs|
    requires forall i :: 0 <= i < |inputs| ==> Readable(inputs[i])
    ensures Shaped(w.reg.riderList)
    ensures w.aborted ==> w.s == -1
    decreases |entries| - n
  {
    if n == |entries| then Sweep(r, s, false)
    else match EntryAction(entries[n].revents)
      case Hangup =>
        var o := Disconnect(r, entries[n].fd);
        SweepFrom(o.reg, rideName, entries, inputs, n + 1, o.rc)
      case Input =>
        var o := Serve(r, rideName, entries[n].fd, RequestOf(inputs[n]));
        SweepFrom(o.reg, rideName, entries, inputs, n + 1, o.rc)
      case Unexpected => Sweep(r, -1, true)
      case Idle => SweepFrom(r, rideName, entries, inputs, n + 1, s)
  }

  /**
   * procFdEvents before the rebuild: a POLLIN on entry 0 (the listening
   * socket) is served first, and a failed connect ends it at once.
   */
  function FdEvents(r: Registry, rideName: string, entries: seq<PollFd>, inputs: seq<Inbound>,
                    acceptRc: int, noDelayOk: bool): (w: Sweep)
    requires Shaped(r.riderList) && 1 <= |entries| == |inputs|
    requires forall i :: 0 <= i < |inputs| ==> Readable(inputs[i])
    requires acceptRc < MAX_FD_VAL && acceptRc !in r.fdMap
    ensures Shaped(w.reg.riderList)
  {
    var c := if entries[0].revents & POLLIN != 0 then Connect(r, acceptRc, noDelayOk) else Outcome(r, 0);
    if c.rc != 0 then Sweep(r, -1, true)
    else SweepFrom(c.reg, rideName, entries, inputs, 1, 0)
  }
}
