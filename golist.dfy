/**
 * Who sendGoMsg sends the go message to, and in which order: the rider
 * lists gender by gender, age group by age group, each from head to tail,
 * skipping riders not in state registered; the first failed send ends it.
 */
module GoList {
  import opened Defs
  import opened Registry

  /** The registered riders of one list, head to tail. */
  function RegisteredOf(m: map<int, Rider>, l: seq<int>): seq<int>
  {
    if l == [] then []
    else (if l[0] in m && m[l[0]].state == Registered then [l[0]] else []) + RegisteredOf(m, l[1..])
  }

  lemma {:induction false} RegisteredOfMembers(m: map<int, Rider>, l: seq<int>)
    ensures forall x :: x in RegisteredOf(m, l) <==> x in l && x in m && m[x].state == Registered
  {
    if l != [] {
      RegisteredOfMembers(m, l[1..]);
      assert forall x :: x in l <==> x == l[0] || x in l[1..];
    }
  }

  lemma {:induction false} RegisteredOfNoDups(m: map<int, Rider>, l: seq<int>)
    requires NoDups(l)
    ensures NoDups(RegisteredOf(m, l))
  {
    if l != [] {
      assert NoDups(l[1..]);
      RegisteredOfNoDups(m, l[1..]);
      RegisteredOfMembers(m, l[1..]);
      assert l[0] !in l[1..];
      var head := if l[0] in m && m[l[0]].state == Registered then [l[0]] else [];
      NoDupsConcat(head, RegisteredOf(m, l[1..]));
    }
  }

  lemma NoDupsConcat(a: seq<int>, b: seq<int>)
    requires NoDups(a) && NoDups(b) && forall x :: x in a ==> x !in b
    ensures NoDups(a + b)
  {
    var c := a + b;
    forall i, j | 0 <= i < j < |c| ensures c[i] != c[j] {
      if i < |a| && j >= |a| {
        assert c[i] in a && c[j] in b;
      } else if i >= |a| {
        assert c[i] == b[i - |a|] && c[j] == b[j - |a|];
      }
    }
  }

  /** List [g][a] comes at or after list [g0][a0] in the visiting order. */
  predicate AtOrAfter(g: int, a: int, g0: int, a0: int) {
    g > g0 || (g == g0 && a >= a0)
  }

  /** The go recipients from list [g][a] on. */
  function GoFrom(m: map<int, Rider>, rl: RiderLists, g: nat, a: nat): seq<int>
    requires Shaped(rl) && g <= GENDER_MAX && a <= AGE_GRP_MAX
    decreases GENDER_MAX - g, AGE_GRP_MAX - a
  {
    if g == GENDER_MAX then []
    else if a == AGE_GRP_MAX then GoFrom(m, rl, g + 1, 0)
    else RegisteredOf(m, rl[g][a]) + GoFrom(m, rl, g, a + 1)
  }

  /** The order in which sendGoMsg tries the riders. */
  function GoOrder(r: Registry): seq<int>
    requires Shaped(r.riderList)
  {
    GoFrom(r.fdMap, r.riderList, 0, 0)
  }

  /**
   * A rider is a recipient from list [g][a] on exactly when it is
   * registered and its own list comes at or after [g][a].
   */
  lemma {:induction false} GoFromMembers(r: Registry, g: nat, a: nat)
    requires Inv(r) && g <= GENDER_MAX && a <= AGE_GRP_MAX
    ensures forall x :: x in GoFrom(r.fdMap, r.riderList, g, a) <==>
              x in r.fdMap && r.fdMap[x].state == Registered &&
              AtOrAfter(r.fdMap[x].gender, r.fdMap[x].ageGrp, g, a)
    decreases GENDER_MAX - g, AGE_GRP_MAX - a
  {
    if g == GENDER_MAX {
    } else if a == AGE_GRP_MAX {
      GoFromMembers(r, g + 1, 0);
    } else {
      GoFromMembers(r, g, a + 1);
      RegisteredOfMembers(r.fdMap, r.riderList[g][a]);
    }
  }

  /** Every registered rider gets the go message, and only they do. */
  lemma GoOrderMembers(r: Registry)
    requires Inv(r)
    ensures forall x :: x in GoOrder(r) <==> x in r.fdMap && r.fdMap[x].state == Registered
  {
    GoFromMembers(r, 0, 0);
  }

  /** Nobody gets the go message twice. */
  lemma {:induction false} GoFromNoDups(r: Registry, g: nat, a: nat)
    requires Inv(r) && g <= GENDER_MAX && a <= AGE_GRP_MAX
    ensures NoDups(GoFrom(r.fdMap, r.riderList, g, a))
    decreases GENDER_MAX - g, AGE_GRP_MAX - a
  {
    var m, rl := r.fdMap, r.riderList;
    if g == GENDER_MAX {
    } else if a == AGE_GRP_MAX {
      GoFromNoDups(r, g + 1, 0);
    } else {
      GoFromNoDups(r, g, a + 1);
      RegisteredOfNoDups(m, rl[g][a]);
      RegisteredOfMembers(m, rl[g][a]);
      GoFromMembers(r, g, a + 1);
      NoDupsConcat(RegisteredOf(m, rl[g][a]), GoFrom(m, rl, g, a + 1));
    }
  }

  /** Nobody gets the go message twice. */
  lemma GoOrderNoDups(r: Registry)
    requires Inv(r)
    ensures NoDups(GoOrder(r))
  {
    GoFromNoDups(r, 0, 0);
  }

  /** Whether some recipient's send fails. */
  predicate AnyFails(order: seq<int>, failing: set<int>) {
    exists i :: 0 <= i < |order| && order[i] in failing
  }

  /** The sends attempted: the recipients up to and including the first whose send fails. */
  function Attempts(order: seq<int>, failing: set<int>): (sent: seq<int>)
    ensures |sent| <= |order|
  {
    if order == [] then []
    else if order[0] in failing then [order[0]]
    else [order[0]] + Attempts(order[1..], failing)
  }

  /** The attempts are a prefix of the order, and all but the last succeeded. */
  lemma {:induction false} AttemptsPrefix(order: seq<int>, failing: set<int>)
    ensures Attempts(order, failing) == order[..|Attempts(order, failing)|]
    ensures forall i :: 0 <= i < |Attempts(order, failing)| - 1 ==> Attempts(order, failing)[i] !in failing
  {
    if order != [] && order[0] !in failing {
      AttemptsPrefix(order[1..], failing);
    }
  }

  /**
   * The last attempt failed exactly when some send fails; when none does,
   * every recipient was sent to.
   */
  lemma {:induction false} AttemptsFail(order: seq<int>, failing: set<int>)
    ensures AnyFails(order, failing) <==>
              |Attempts(order, failing)| > 0 && Attempts(order, failing)[|Attempts(order, failing)| - 1] in failing
    ensures !AnyFails(order, failing) ==> Attempts(order, failing) == order
  {
    if order != [] && order[0] !in failing {
      var rest := order[1..];
      AttemptsFail(rest, failing);
      if AnyFails(rest, failing) {
        var i :| 0 <= i < |rest| && rest[i] in failing;
        assert order[i + 1] == rest[i];
      }
      if AnyFails(order, failing) {
        var i :| 0 <= i < |order| && order[i] in failing;
        assert rest[i - 1] == order[i];
      }
    } else if order != [] {
      assert order[0] in failing;
    }
  }

  /** Sending to one more recipient first. */
  lemma AttemptsCons(v: int, rest: seq<int>, failing: set<int>)
    ensures Attempts([v] + rest, failing) == if v in failing then [v] else [v] + Attempts(rest, failing)
    ensures AnyFails([v] + rest, failing) <==> v in failing || AnyFails(rest, failing)
  {
    var order := [v] + rest;
    assert order[0] == v && order[1..] == rest;
    if AnyFails(rest, failing) {
      var i :| 0 <= i < |rest| && rest[i] in failing;
      assert order[i + 1] == rest[i];
    }
    if AnyFails(order, failing) && v !in failing {
      var i :| 0 <= i < |order| && order[i] in failing;
      assert rest[i - 1] == order[i];
    }
  }

  /** Some send over a + b fails exactly when one over a or one over b does. */
  lemma AnyFailsConcat(a: seq<int>, b: seq<int>, failing: set<int>)
    ensures AnyFails(a + b, failing) <==> AnyFails(a, failing) || AnyFails(b, failing)
  {
    var c := a + b;
    if AnyFails(a, failing) {
      var i :| 0 <= i < |a| && a[i] in failing;
      assert c[i] == a[i];
    }
    if AnyFails(b, failing) {
      var i :| 0 <= i < |b| && b[i] in failing;
      assert c[|a| + i] == b[i];
    }
    if AnyFails(c, failing) {
      var i :| 0 <= i < |c| && c[i] in failing;
      if i < |a| {
        assert a[i] == c[i];
      } else {
        assert b[i - |a|] == c[i];
      }
    }
  }

  /** Sending to the recipients of a, then of b. */
  lemma {:induction false} AttemptsConcat(a: seq<int>, b: seq<int>, failing: set<int>)
    ensures Attempts(a + b, failing) == if AnyFails(a, failing) then Attempts(a, failing) else a + Attempts(b, failing)
  {
    if a == [] {
      assert a + b == b;
    } else {
      AttemptsConcat(a[1..], b, failing);
      assert a + b == [a[0]] + (a[1..] + b);
      assert a == [a[0]] + a[1..];
      AttemptsCons(a[0], a[1..] + b, failing);
      AttemptsCons(a[0], a[1..], failing);
    }
  }

  /**
   * The sends over the recipients from list [g][a] on: those of list
   * [g][a], then, when none of them failed, those from the next list on.
   */
  lemma GoStep(m: map<int, Rider>, rl: RiderLists, g: nat, a: nat, failing: set<int>)
    requires Shaped(rl) && g < GENDER_MAX && a < AGE_GRP_MAX
    ensures var here := RegisteredOf(m, rl[g][a]);
            var next := GoFrom(m, rl, g, a + 1);
            && (AnyFails(here, failing) ==> Attempts(GoFrom(m, rl, g, a), failing) == Attempts(here, failing))
            && (!AnyFails(here, failing) ==> Attempts(GoFrom(m, rl, g, a), failing) == here + Attempts(next, failing))
            && (AnyFails(GoFrom(m, rl, g, a), failing) <==> AnyFails(here, failing) || AnyFails(next, failing))
  {
    var here := RegisteredOf(m, rl[g][a]);
    assert GoFrom(m, rl, g, a) == here + GoFrom(m, rl, g, a + 1);
    AttemptsConcat(here, GoFrom(m, rl, g, a + 1), failing);
    AnyFailsConcat(here, GoFrom(m, rl, g, a + 1), failing);
  }

  /** Sending a, then b, then c, whichever way the sends are grouped. */
  lemma ConcatAssoc(a: seq<int>, b: seq<int>, c: seq<int>)
    ensures a + (b + c) == (a + b) + c
  {
  }
}
