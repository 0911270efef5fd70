/**
 * parseCmdArgs of main.c: the option loop over argv and the sanity checks
 * after it. The library parsers it calls (inet_pton for IPv4 and IPv6,
 * strptime followed by mktime) are given as functions.
 */
module CmdLine {
  import opened Options
  import opened Defs
  import opened CLib

  /** inet_pton(AF_INET, ...), inet_pton(AF_INET6, ...) and strptime + mktime: None where they fail. */
  datatype Parsers = Parsers(
    pton4: string -> Option<seq<bv8>>,
    pton6: string -> Option<seq<bv8>>,
    startTimeOf: string -> Option<int>)

  /** What parseCmdArgs does: return rc with the record as it then is, or exit(0) after --help or --version. */
  datatype Parse = Returned(rc: int, args: CmdArgs) | Exited

  const MIN_TCP_PORT := 49152
  const MAX_TCP_PORT := 65535

  /** The options that take a value from the next argument. */
  predicate TakesValue(arg: string) {
    arg == "--ip-addr" || arg == "--max-riders" || arg == "--report-period" ||
    arg == "--tcp-port" || arg == "--start-time"
  }

  /** The options parseCmdArgs knows. */
  predicate Known(arg: string) {
    TakesValue(arg) || arg == "--help" || arg == "--version"
  }

  /** Whether option arg accepts the value val: the address, "%d" or time conversion succeeds. */
  predicate Accepts(p: Parsers, arg: string, val: string)
    requires TakesValue(arg)
  {
    if arg == "--ip-addr" then p.pton4(val).Some? || p.pton6(val).Some?
    else if arg == "--start-time" then p.startTimeOf(val).Some?
    else ScanInt(val).Some?
  }

  /**
   * The record with the fields option o sets cleared: two records equal
   * here differ at most in what o overwrites.
   */
  function Strip(o: string, a: CmdArgs): CmdArgs
    requires TakesValue(o)
  {
    if o == "--ip-addr" then a.(sockAddr := a.sockAddr.(family := 0, addr := []))
    else if o == "--max-riders" then a.(maxRiders := 0)
    else if o == "--report-period" then a.(reportPeriod := 0)
    else if o == "--tcp-port" then a.(tcpPort := 0)
    else a.(startTime := 0)
  }

  /**
   * The value-taking option arg with its value val: the new record, or
   * None where the value is rejected. Whether it is rejected depends on
   * the value alone, and only the fields of arg change.
   */
  function Apply(p: Parsers, arg: string, val: string, a: CmdArgs): (r: Option<CmdArgs>)
    requires TakesValue(arg)
    ensures r.Some? <==> Accepts(p, arg, val)
    ensures r.Some? ==> Strip(arg, r.value) == Strip(arg, a)
  {
    if arg == "--ip-addr" then
      match p.pton4(val)
      case Some(addr) => Some(a.(sockAddr := a.sockAddr.(family := AF_INET, addr := addr)))
      case None =>
        match p.pton6(val)
        case Some(addr) => Some(a.(sockAddr := a.sockAddr.(family := AF_INET6, addr := addr)))
        case None => None
    else if arg == "--max-riders" then
      match ScanInt(val)
      case Some(v) => Some(a.(maxRiders := v))
      case None => None
    else if arg == "--report-period" then
      match ScanInt(val)
      case Some(v) => Some(a.(reportPeriod := v))
      case None => None
    else if arg == "--tcp-port" then
      match ScanInt(val)
      case Some(v) => Some(a.(tcpPort := v))
      case None => None
    else
      match p.startTimeOf(val)
      case Some(t) => Some(a.(startTime := t))
      case None => None
  }

  /** The checks after the loop: the port range, the default family and the port in the address. */
  function Finish(a: CmdArgs): (r: Parse)
    ensures r.Returned? && (r.rc == 0 <==> MIN_TCP_PORT <= a.tcpPort <= MAX_TCP_PORT)
    ensures r.rc != 0 ==> r.rc == -1 && r.args == a
    ensures r.rc == 0 ==>
              && r.args.sockAddr.port == a.tcpPort
              && r.args.sockAddr.family == (if a.sockAddr.family == 0 then AF_INET else a.sockAddr.family)
              && r.args.(sockAddr := a.sockAddr) == a && r.args.sockAddr.addr == a.sockAddr.addr
  {
    if a.tcpPort < MIN_TCP_PORT || a.tcpPort > MAX_TCP_PORT then Returned(-1, a)
    else
      var family := if a.sockAddr.family == 0 then AF_INET else a.sockAddr.family;
      Returned(0, a.(sockAddr := a.sockAddr.(family := family, port := a.tcpPort)))
  }

  /** The option loop from argument n on (argv[n + 1] in C), then the checks. */
  function ParseFrom(p: Parsers, argv: seq<string>, n: nat, a: CmdArgs): (r: Parse)
    requires n <= |argv|
    ensures r.Returned? ==> r.rc == 0 || r.rc == -1
    decreases |argv| - n
  {
    if n == |argv| then Finish(a)
    else
      var arg := argv[n];
      if arg == "--help" || arg == "--version" then Exited
      else if !TakesValue(arg) then Returned(-1, a)
      else if n + 1 == |argv| then Returned(-1, a)
      else
        match Apply(p, arg, argv[n + 1], a)
        case None => Returned(-1, a)
        case Some(a') => ParseFrom(p, argv, n + 2, a')
  }

  /** parseCmdArgs(argc, argv, pArgs), with argv holding the arguments after the program name. */
  function ParseCmdArgsOf(p: Parsers, argv: seq<string>, a: CmdArgs): Parse
  {
    ParseFrom(p, argv, 0, a)
  }

  /**
   * The loop of parseCmdArgs, which reads an option's value with
   * argv[++n] and updates the record field by field.
   */
  method ParseCmdArgs(p: Parsers, argv: seq<string>, a0: CmdArgs) returns (r: Parse)
    ensures r == ParseCmdArgsOf(p, argv, a0)
  {
    var args := a0;
    var n := 0;
    while n < |argv|
      invariant 0 <= n <= |argv|
      invariant ParseFrom(p, argv, n, args) == ParseFrom(p, argv, 0, a0)
      decreases |argv| - n
    {
      var arg := argv[n];
      if arg == "--help" || arg == "--version" {
        return Exited;
      } else if arg == "--ip-addr" {
        n := n + 1;
        if n == |argv| {
          return Returned(-1, args);
        }
        var val := argv[n];
        var v4 := p.pton4(val);
        if v4.Some? {
          args := args.(sockAddr := args.sockAddr.(family := AF_INET, addr := v4.value));
        } else {
          var v6 := p.pton6(val);
          if v6.Some? {
            args := args.(sockAddr := args.sockAddr.(family := AF_INET6, addr := v6.value));
          } else {
            return Returned(-1, args);
          }
        }
      } else if arg == "--max-riders" || arg == "--report-period" || arg == "--tcp-port" {
        n := n + 1;
        if n == |argv| {
          return Returned(-1, args);
        }
        var v := ScanInt(argv[n]);
        if v.None? {
          return Returned(-1, args);
        }
        if arg == "--max-riders" {
          args := args.(maxRiders := v.value);
        } else if arg == "--report-period" {
          args := args.(reportPeriod := v.value);
        } else {
          args := args.(tcpPort := v.value);
        }
      } else if arg == "--start-time" {
        n := n + 1;
        if n == |argv| {
          return Returned(-1, args);
        }
        var t := p.startTimeOf(argv[n]);
        if t.None? {
          return Returned(-1, args);
        }
        args := args.(startTime := t.value);
      } else {
        return Returned(-1, args);
      }
      n := n + 1;
    }
    if args.tcpPort < MIN_TCP_PORT || args.tcpPort > MAX_TCP_PORT {
      return Returned(-1, args);
    }
    if args.sockAddr.family == 0 {
      args := args.(sockAddr := args.sockAddr.(family := AF_INET));
    }
    args := args.(sockAddr := args.sockAddr.(port := args.tcpPort));
    return Returned(0, args);
  }

  // ---------------------------------------------------------------------
  // Properties
  // ---------------------------------------------------------------------

  /** The address family is unset, IPv4 or IPv6. */
  predicate FamilyOk(family: int) {
    family == 0 || family == AF_INET || family == AF_INET6
  }

  /**
   * A successful parse leaves a port in 49152..65535, stored in the
   * address too, and an IPv4 or IPv6 address family.
   */
  lemma {:induction false} ParseFromOk(p: Parsers, argv: seq<string>, n: nat, a: CmdArgs)
    requires n <= |argv| && FamilyOk(a.sockAddr.family)
    ensures var r := ParseFrom(p, argv, n, a);
            r.Returned? && r.rc == 0 ==>
              && MIN_TCP_PORT <= r.args.tcpPort <= MAX_TCP_PORT
              && r.args.sockAddr.port == r.args.tcpPort
              && (r.args.sockAddr.family == AF_INET || r.args.sockAddr.family == AF_INET6)
    decreases |argv| - n
  {
    if n < |argv| && TakesValue(argv[n]) && n + 1 < |argv| {
      match Apply(p, argv[n], argv[n + 1], a)
      case None =>
      case Some(a') => ParseFromOk(p, argv, n + 2, a');
    }
  }

  /** An argument that is not an option parseCmdArgs knows makes it return -1, with the record as it was. */
  lemma UnknownOption(p: Parsers, argv: seq<string>, n: nat, a: CmdArgs)
    requires n < |argv| && !Known(argv[n])
    ensures ParseFrom(p, argv, n, a) == Returned(-1, a)
  {
  }

  /** A value-taking option given as the last argument makes parseCmdArgs return -1. */
  lemma MissingValue(p: Parsers, argv: seq<string>, a: CmdArgs)
    requires |argv| >= 1 && TakesValue(argv[|argv| - 1])
    ensures ParseFrom(p, argv, |argv| - 1, a) == Returned(-1, a)
  {
  }

  /**
   * --max-riders, --report-period and --tcp-port take the leading integer
   * "%d" finds in their value and reject a value without one.
   */
  lemma IntOption(p: Parsers, arg: string, val: string, a: CmdArgs)
    requires arg == "--max-riders" || arg == "--report-period" || arg == "--tcp-port"
    ensures Apply(p, arg, val, a).None? <==> ScanInt(val).None?
    ensures ScanInt(val).Some? ==>
              var v := ScanInt(val).value;
              var b := Apply(p, arg, val, a).value;
              && b.maxRiders == (if arg == "--max-riders" then v else a.maxRiders)
              && b.reportPeriod == (if arg == "--report-period" then v else a.reportPeriod)
              && b.tcpPort == (if arg == "--tcp-port" then v else a.tcpPort)
              && b.sockAddr == a.sockAddr && b.startTime == a.startTime && b.rideName == a.rideName
  {
  }

  /** --ip-addr tries IPv4, then IPv6, and rejects a value that is neither. */
  lemma IpAddrOption(p: Parsers, val: string, a: CmdArgs)
    ensures var b := Apply(p, "--ip-addr", val, a);
            && (b.None? <==> p.pton4(val).None? && p.pton6(val).None?)
            && (p.pton4(val).Some? ==> b.value.sockAddr.family == AF_INET && b.value.sockAddr.addr == p.pton4(val).value)
            && (p.pton4(val).None? && p.pton6(val).Some? ==>
                  b.value.sockAddr.family == AF_INET6 && b.value.sockAddr.addr == p.pton6(val).value)
  {
  }

  /** Applying option o to records that differ only in o's fields gives the same record. */
  lemma ApplySame(p: Parsers, o: string, val: string, x: CmdArgs, y: CmdArgs)
    requires TakesValue(o) && Strip(o, x) == Strip(o, y)
    ensures Apply(p, o, val, x) == Apply(p, o, val, y)
  {
    assert x.sockAddr.port == Strip(o, x).sockAddr.port;
  }

  /** Applying another option keeps two records differing only in o's fields so. */
  lemma ApplyOther(p: Parsers, o: string, o2: string, val: string, x: CmdArgs, y: CmdArgs)
    requires TakesValue(o) && TakesValue(o2) && o != o2 && Accepts(p, o2, val)
    requires Strip(o, x) == Strip(o, y)
    ensures Strip(o, Apply(p, o2, val, x).value) == Strip(o, Apply(p, o2, val, y).value)
  {
    assert x.sockAddr.port == Strip(o, x).sockAddr.port;
  }

  /** From argument m on come k pairs of value-taking options other than o, each with a value it accepts. */
  predicate OtherPairs(p: Parsers, argv: seq<string>, m: nat, k: nat, o: string)
    decreases k
  {
    k == 0 ||
      (&& m + 1 < |argv| && TakesValue(argv[m]) && argv[m] != o && Accepts(p, argv[m], argv[m + 1])
       && OtherPairs(p, argv, m + 2, k - 1, o))
  }

  /**
   * Records that differ only in o's fields parse alike when, after k
   * accepted pairs of other options, o is set again with a value it
   * accepts.
   */
  lemma {:induction false} SkipPairs(p: Parsers, argv: seq<string>, m: nat, k: nat, o: string,
                                     x: CmdArgs, y: CmdArgs)
    requires TakesValue(o) && OtherPairs(p, argv, m, k, o)
    requires m + 2 * k + 1 < |argv| && argv[m + 2 * k] == o && Accepts(p, o, argv[m + 2 * k + 1])
    requires Strip(o, x) == Strip(o, y)
    ensures ParseFrom(p, argv, m, x) == ParseFrom(p, argv, m, y)
    decreases k
  {
    if k == 0 {
      ApplySame(p, o, argv[m + 1], x, y);
    } else {
      ApplyOther(p, o, argv[m], argv[m + 1], x, y);
      SkipPairs(p, argv, m + 2, k - 1, o, Apply(p, argv[m], argv[m + 1], x).value,
                Apply(p, argv[m], argv[m + 1], y).value);
    }
  }

  /**
   * Of two settings of the same option, the later one wins: when an
   * option set at n is set again after k accepted settings of other
   * options, the parse is the same with the pair at n left out.
   */
  lemma RepeatedOption(p: Parsers, argv: seq<string>, n: nat, a: CmdArgs, k: nat)
    requires n + 1 < |argv| && TakesValue(argv[n]) && Accepts(p, argv[n], argv[n + 1])
    requires OtherPairs(p, argv, n + 2, k, argv[n])
    requires n + 2 * k + 3 < |argv| && argv[n + 2 * k + 2] == argv[n]
    requires Accepts(p, argv[n], argv[n + 2 * k + 3])
    ensures ParseFrom(p, argv, n, a) == ParseFrom(p, argv, n + 2, a)
  {
    var b := Apply(p, argv[n], argv[n + 1], a).value;
    assert ParseFrom(p, argv, n, a) == ParseFrom(p, argv, n + 2, b);
    SkipPairs(p, argv, n + 2, k, argv[n], b, a);
  }

  /** With no --tcp-port argument the port keeps its value, and the zeroed record's port fails the range check. */
  lemma {:induction false} NoPortFails(p: Parsers, argv: seq<string>, n: nat, a: CmdArgs)
    requires n <= |argv| && (forall i :: n <= i < |argv| ==> argv[i] != "--tcp-port")
    requires a.tcpPort < MIN_TCP_PORT || a.tcpPort > MAX_TCP_PORT
    ensures var r := ParseFrom(p, argv, n, a);
            r.Returned? ==> r.rc != 0
    decreases |argv| - n
  {
    if n < |argv| && TakesValue(argv[n]) && n + 1 < |argv| {
      match Apply(p, argv[n], argv[n + 1], a)
      case None =>
      case Some(a') => NoPortFails(p, argv, n + 2, a');
    }
  }

  /**
   * main: parse into a zeroed record; -1 where parseCmdArgs fails, 0 where
   * it succeeds or exits after --help or --version.
   */
  function MainStatus(p: Parsers, argv: seq<string>): (st: int)
    ensures st == 0 || st == -1
  {
    match ParseCmdArgsOf(p, argv, ZeroArgs())
    case Exited => 0
    case Returned(rc, _) => if rc != 0 then -1 else 0
  }

  /** Without --tcp-port (and without --help or --version) main fails. */
  lemma NoPortNoStart(p: Parsers, argv: seq<string>)
    requires forall i :: 0 <= i < |argv| ==> argv[i] != "--tcp-port"
    requires forall i :: 0 <= i < |argv| ==> argv[i] != "--help" && argv[i] != "--version"
    ensures MainStatus(p, argv) == -1
  {
    NoPortFails(p, argv, 0, ZeroArgs());
    ExitsOnlyOnRequest(p, argv, 0, ZeroArgs());
  }

  /** Without --ip-addr the family stays unset in the loop, and a successful parse picks IPv4. */
  lemma {:induction false} DefaultFamily(p: Parsers, argv: seq<string>, n: nat, a: CmdArgs)
    requires n <= |argv| && a.sockAddr.family == 0
    requires forall i :: n <= i < |argv| ==> argv[i] != "--ip-addr"
    ensures var r := ParseFrom(p, argv, n, a);
            r.Returned? && r.rc == 0 ==> r.args.sockAddr.family == AF_INET
    decreases |argv| - n
  {
    if n < |argv| && TakesValue(argv[n]) && n + 1 < |argv| {
      match Apply(p, argv[n], argv[n + 1], a)
      case None =>
      case Some(a') => DefaultFamily(p, argv, n + 2, a');
    }
  }

  /** parseCmdArgs exits only on --help or --version. */
  lemma {:induction false} ExitsOnlyOnRequest(p: Parsers, argv: seq<string>, n: nat, a: CmdArgs)
    requires n <= |argv|
    ensures ParseFrom(p, argv, n, a).Exited? ==>
              exists i :: n <= i < |argv| && (argv[i] == "--help" || argv[i] == "--version")
    decreases |argv| - n
  {
    if n < |argv| && TakesValue(argv[n]) && n + 1 < |argv| {
      match Apply(p, argv[n], argv[n + 1], a)
      case None =>
      case Some(a') => ExitsOnlyOnRequest(p, argv, n + 2, a');
    }
  }
}
