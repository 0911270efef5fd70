/**
 * Shared definitions of the group ride server (defs.h): the poll event
 * bits, the gender / age-group / rider-state enumerations, the Rider record,
 * the command-line arguments record and the Timespec helpers tvCmp / tvSub.
 */
module Defs {
  import opened Options

  // poll(2) event bits, Linux values
  const POLLIN: bv16 := 0x0001
  const POLLHUP: bv16 := 0x0010
  const POLLRDHUP: bv16 := 0x2000

  // Address families, Linux values
  const AF_INET := 2
  const AF_INET6 := 10

  /** Size of the fd -> Rider table (FD_SETSIZE + 1). */
  const MAX_FD_VAL := 1025

  // enum Gender. grs.c also uses nonBinary, declared in a header that is
  // not part of this model; it is taken to follow male.
  const UNSPEC := 0
  const FEMALE := 1
  const MALE := 2
  const NON_BINARY := 3
  const GENDER_MAX := 4
  type Gender = g: int | 0 <= g < 4

  // enum AgeGrp: undef, u19, u35, u40, ..., u100
  const UNDEF := 0
  const U19 := 1
  const U35 := 2
  const U40 := 3
  const U45 := 4
  const U50 := 5
  const U55 := 6
  const U60 := 7
  const U65 := 8
  const U70 := 9
  const U75 := 10
  const U80 := 11
  const U85 := 12
  const U90 := 13
  const U95 := 14
  const U100 := 15
  const AGE_GRP_MAX := 16
  type AgeGrp = a: int | 0 <= a < 16

  /** struct pollfd. */
  datatype PollFd = PollFd(fd: int, events: bv16, revents: bv16)

  datatype RiderState = Unknown | Connected | Registered | Active

  /** The Rider fields that grs.c reads or writes. */
  datatype Rider = Rider(
    ageGrp: AgeGrp,
    age: int,
    bibNum: int,
    distance: int,
    power: int,
    gender: Gender,
    name: Option<string>,
    sd: int,
    state: RiderState)

  /** A socket address: family, raw address bytes and port (host order). */
  datatype SockAddr = SockAddr(family: int, addr: seq<bv8>, port: int)

  /**
   * Command-line arguments. Strings are `None` where the C struct holds a
   * NULL pointer; main zero-initialises the whole record.
   */
  datatype CmdArgs = CmdArgs(
    maxRiders: int,
    reportPeriod: int,
    rideName: Option<string>,
    controlFile: Option<string>,
    videoFile: Option<string>,
    sockAddr: SockAddr,
    startTime: int,
    tcpPort: int)

  /** `CmdArgs cmdArgs = {0};` */
  function ZeroArgs(): (a: CmdArgs)
    ensures a.tcpPort == 0 && a.sockAddr.family == 0 && a.rideName == None
  {
    CmdArgs(0, 0, None, None, None, SockAddr(0, [], 0), 0, 0)
  }

  datatype Timespec = Timespec(sec: int, nsec: int)

  /** The instant a Timespec denotes, in nanoseconds. */
  function Nanos(t: Timespec): int {
    t.sec * 1000000000 + t.nsec
  }

  /** Lexicographic order on (sec, nsec). */
  predicate TvLess(x: Timespec, y: Timespec) {
    x.sec < y.sec || (x.sec == y.sec && x.nsec < y.nsec)
  }

  /** tvCmp: -1, 0 or 1 as x is less than, equal to or greater than y. */
  function TvCmp(x: Timespec, y: Timespec): (r: int)
    ensures r == -1 || r == 0 || r == 1
    ensures r == 0 <==> x == y
    ensures r == -1 <==> TvLess(x, y)
    ensures r == 1 <==> TvLess(y, x)
  {
    if x.sec < y.sec then -1
    else if x.sec > y.sec then 1
    else if x.nsec < y.nsec then -1
    else if x.nsec > y.nsec then 1
    else 0
  }

  lemma TvCmpAntisymmetric(x: Timespec, y: Timespec)
    ensures TvCmp(x, y) == -TvCmp(y, x)
  {
  }

  lemma TvCmpTransitive(x: Timespec, y: Timespec, z: Timespec)
    ensures TvCmp(x, y) <= 0 && TvCmp(y, z) <= 0 ==> TvCmp(x, z) <= 0
    ensures TvCmp(x, y) < 0 && TvCmp(y, z) <= 0 ==> TvCmp(x, z) < 0
  {
  }

  /**
   * tvSub, as written: the borrow branch adds 1000000 (not 10^9) to the
   * nanoseconds, so a borrow loses exactly 999000000 ns of the difference.
   */
  function TvSub(x: Timespec, y: Timespec): (r: Timespec)
    ensures x.nsec >= y.nsec ==> Nanos(r) == Nanos(x) - Nanos(y)
    ensures x.nsec < y.nsec ==> Nanos(r) == Nanos(x) - Nanos(y) - 999000000
    ensures x.nsec >= y.nsec && TvCmp(x, y) >= 0 ==> r.sec >= 0
  {
    if x.nsec >= y.nsec then
      Timespec(x.sec - y.sec, x.nsec - y.nsec)
    else
      Timespec((x.sec - 1) - y.sec, (x.nsec + 1000000) - y.nsec)
  }

  /** Subtracting the zero Timespec gives back its argument. */
  lemma TvSubZero(x: Timespec)
    requires x.nsec >= 0
    ensures TvSub(x, Timespec(0, 0)) == x
  {
  }

  /**
   * A borrow yields a nanosecond field outside 0..999999999 even for
   * normalised operands with x later than y: 2.0 s - 1.5 s gives
   * (0 s, -499000000 ns) and compares below a 0.5 s period.
   */
  lemma TvSubBorrowNotNormalised()
    ensures TvSub(Timespec(2, 0), Timespec(1, 500000000)) == Timespec(0, -499000000)
    ensures TvCmp(TvSub(Timespec(2, 0), Timespec(1, 500000000)), Timespec(0, 500000000)) == -1
  {
  }
}
