/**
 * The C library behaviour the core relies on, stated as functions on
 * character sequences: isspace / isdigit, strchr over NUL-terminated memory,
 * the region comparison of memcmp / strncmp against a literal, and the
 * integer conversions of sscanf "%d" and printf "%d".
 */
module CLib {
  import opened Options

  const NUL: char := 0 as char

  /** isspace in the C locale. */
  predicate IsSpace(c: char) {
    c == ' ' || c == '\t' || c == '\n' || c == '\U{0B}' || c == '\U{0C}' || c == '\r'
  }

  predicate IsDigit(c: char) {
    '0' <= c <= '9'
  }

  predicate AllDigits(d: seq<char>) {
    forall i :: 0 <= i < |d| ==> IsDigit(d[i])
  }

  /** Memory from `from` on holds a terminating NUL before it ends. */
  predicate HasNul(mem: seq<char>, from: nat) {
    exists i :: from <= i < |mem| && mem[i] == NUL
  }

  /**
   * strchr(mem + from, c) for a non-NUL c: the first index holding c, or
   * None when the terminating NUL comes first (StrChrFirst, StrChrAt).
   */
  function StrChr(mem: seq<char>, from: nat, c: char): (r: Option<nat>)
    requires HasNul(mem, from) && c != NUL
    ensures r.Some? ==> from <= r.value < |mem| && mem[r.value] == c && HasNul(mem, r.value + 1)
    decreases |mem| - from
  {
    if mem[from] == c then Some(from)
    else if mem[from] == NUL then None
    else
      assert HasNul(mem, from + 1) by {
        var i :| from <= i < |mem| && mem[i] == NUL;
        assert i != from;
      }
      StrChr(mem, from + 1, c)
  }

  /** Before the index strchr reports there is neither c nor a NUL. */
  lemma {:induction false} StrChrFirst(mem: seq<char>, from: nat, c: char)
    requires HasNul(mem, from) && c != NUL
    ensures StrChr(mem, from, c).Some? ==>
              forall k :: from <= k < StrChr(mem, from, c).value ==> mem[k] != c && mem[k] != NUL
    ensures StrChr(mem, from, c).None? ==>
              exists j :: from <= j < |mem| && mem[j] == NUL && forall k :: from <= k < j ==> mem[k] != c
    decreases |mem| - from
  {
    if mem[from] != c && mem[from] != NUL {
      assert HasNul(mem, from + 1) by {
        var i :| from <= i < |mem| && mem[i] == NUL;
        assert i != from;
      }
      StrChrFirst(mem, from + 1, c);
      if StrChr(mem, from, c).None? {
        var j :| from + 1 <= j < |mem| && mem[j] == NUL && forall k :: from + 1 <= k < j ==> mem[k] != c;
        assert forall k :: from <= k < j ==> mem[k] != c;
      }
    }
  }

  /** Conversely, an index holding c with neither c nor NUL before it is what strchr reports. */
  lemma {:induction false} StrChrAt(mem: seq<char>, from: nat, c: char, i: nat)
    requires HasNul(mem, from) && c != NUL
    requires from <= i < |mem| && mem[i] == c
    requires forall k :: from <= k < i ==> mem[k] != c && mem[k] != NUL
    ensures StrChr(mem, from, c) == Some(i)
    decreases i - from
  {
    if from < i {
      assert HasNul(mem, from + 1) by {
        var j :| from <= j < |mem| && mem[j] == NUL;
        assert j != from;
      }
      StrChrAt(mem, from + 1, c, i);
    }
  }

  /** The characters strchr skipped contain neither c nor a NUL. */
  lemma StrChrSpan(mem: seq<char>, from: nat, c: char)
    requires HasNul(mem, from) && c != NUL && StrChr(mem, from, c).Some?
    ensures c !in mem[from..StrChr(mem, from, c).value]
    ensures NUL !in mem[from..StrChr(mem, from, c).value]
  {
    StrChrFirst(mem, from, c);
    var span := mem[from..StrChr(mem, from, c).value];
    forall i | 0 <= i < |span| ensures span[i] != c && span[i] != NUL {
      assert span[i] == mem[from + i];
    }
  }

  /** A NUL at or after `from` is also at or after any earlier index. */
  lemma HasNulEarlier(mem: seq<char>, from: nat, earlier: nat)
    requires HasNul(mem, from) && earlier <= from
    ensures HasNul(mem, earlier)
  {
    var i :| from <= i < |mem| && mem[i] == NUL;
    assert earlier <= i;
  }

  /**
   * memcmp(mem + p, lit, |lit|) == 0, where a comparison that would run
   * past the modelled memory counts as a mismatch.
   */
  predicate RegionIs(mem: seq<char>, p: nat, lit: seq<char>) {
    p + |lit| <= |mem| && mem[p..p + |lit|] == lit
  }

  /** First index at or after i that is not white space. */
  function SkipSpace(s: string, i: nat): (r: nat)
    requires i <= |s|
    ensures i <= r <= |s| && (r == |s| || !IsSpace(s[r]))
    ensures forall k :: i <= k < r ==> IsSpace(s[k])
    decreases |s| - i
  {
    if i < |s| && IsSpace(s[i]) then SkipSpace(s, i + 1) else i
  }

  /** End of the run of decimal digits that starts at i. */
  function DigitRun(s: string, i: nat): (r: nat)
    requires i <= |s|
    ensures i <= r <= |s| && (r == |s| || !IsDigit(s[r]))
    ensures AllDigits(s[i..r])
    decreases |s| - i
  {
    if i < |s| && IsDigit(s[i]) then DigitRun(s, i + 1) else i
  }

  /** Value of a decimal digit string, most significant digit first. */
  function DigitsValue(d: seq<char>): (v: nat)
    requires AllDigits(d)
  {
    if d == [] then 0
    else DigitsValue(d[..|d| - 1]) * 10 + ((d[|d| - 1] as int) - ('0' as int))
  }

  /**
   * sscanf(s, "%d", &x): optional white space, an optional sign and at
   * least one digit. None is a return value other than 1, in which case x
   * is left unchanged.
   */
  function ScanInt(s: string): Option<int> {
    var i := SkipSpace(s, 0);
    var neg := i < |s| && s[i] == '-';
    var j := if i < |s| && (s[i] == '-' || s[i] == '+') then i + 1 else i;
    var k := DigitRun(s, j);
    if k == j then None
    else
      var v: int := DigitsValue(s[j..k]);
      Some(if neg then -v else v)
  }

  function DigitChar(n: nat): (c: char)
    requires n < 10
    ensures IsDigit(c) && (c as int) - ('0' as int) == n
  {
    (n + '0' as int) as char
  }

  /** The decimal digits of n, without leading zeros. */
  function Digits(n: nat): (d: string)
    ensures |d| >= 1 && AllDigits(d)
    ensures DigitsValue(d) == n
    ensures |d| > 1 ==> d[0] != '0'
  {
    if n < 10 then [DigitChar(n)]
    else
      var d := Digits(n / 10) + [DigitChar(n % 10)];
      assert d[..|d| - 1] == Digits(n / 10);
      d
  }

  /** printf("%d", n). */
  function Itoa(n: int): (s: string)
    ensures |s| >= 1 && (IsDigit(s[0]) || s[0] == '-')
  {
    if n < 0 then "-" + Digits(-n) else Digits(n)
  }

  lemma {:induction false} DigitRunOver(s: string, j: nat, d: string)
    requires j + |d| <= |s| && s[j..j + |d|] == d && AllDigits(d)
    requires j + |d| == |s| || !IsDigit(s[j + |d|])
    ensures DigitRun(s, j) == j + |d|
    decreases |d|
  {
    if |d| > 0 {
      assert s[j] == d[0];
      assert s[j + 1..j + 1 + |d[1..]|] == d[1..];
      DigitRunOver(s, j + 1, d[1..]);
    }
  }

  /**
   * Round trip: reading back with "%d" what "%d" printed gives the number,
   * whatever non-digit text follows it.
   */
  lemma ScanIntItoa(n: int, rest: string)
    requires rest == [] || !IsDigit(rest[0])
    ensures ScanInt(Itoa(n) + rest) == Some(n)
  {
    var s := Itoa(n) + rest;
    var d := if n < 0 then Digits(-n) else Digits(n);
    var j := if n < 0 then 1 else 0;
    assert SkipSpace(s, 0) == 0;
    assert s[j..j + |d|] == d;
    DigitRunOver(s, j, d);
    assert s[j..DigitRun(s, j)] == d;
  }

  /** The value of the digits d read with the sign sg. */
  function Signed(sg: string, d: string): int
    requires AllDigits(d)
  {
    var v: int := DigitsValue(d);
    if sg == "-" then -v else v
  }

  predicate AllSpace(w: seq<char>) {
    forall i :: 0 <= i < |w| ==> IsSpace(w[i])
  }

  /** The sign "%d" accepts in front of the digits: none, '+' or '-'. */
  predicate SignText(sg: string) {
    sg == "" || sg == "+" || sg == "-"
  }

  lemma {:induction false} SkipSpaceOver(s: string, i: nat, w: string)
    requires i + |w| <= |s| && s[i..i + |w|] == w && AllSpace(w)
    requires i + |w| == |s| || !IsSpace(s[i + |w|])
    ensures SkipSpace(s, i) == i + |w|
    decreases |w|
  {
    if |w| > 0 {
      assert s[i] == w[0];
      assert s[i + 1..i + 1 + |w[1..]|] == w[1..];
      SkipSpaceOver(s, i + 1, w[1..]);
    }
  }

  /**
   * "%d" on white space, an optional sign and digits, followed by text
   * that does not continue the digits, reads the signed value of the
   * digits (so " 42", "+42" and "042" all read 42).
   */
  lemma ScanIntValue(w: string, sg: string, d: string, rest: string)
    requires AllSpace(w) && SignText(sg) && |d| > 0 && AllDigits(d)
    requires rest == [] || !IsDigit(rest[0])
    ensures ScanInt(w + sg + d + rest) == Some(Signed(sg, d))
  {
    var s := w + sg + d + rest;
    var j := |w| + |sg|;
    assert s[..|w|] == w && s[|w|..j] == sg && s[j..j + |d|] == d;
    assert j + |d| < |s| ==> s[j + |d|] == rest[0];
    ScanIntAt(s, w, sg, d);
  }

  /** ScanIntValue, with the text given by where its parts lie in it. */
  lemma ScanIntAt(s: string, w: string, sg: string, d: string)
    requires AllSpace(w) && SignText(sg) && |d| > 0 && AllDigits(d)
    requires |w| + |sg| + |d| <= |s| && s[..|w|] == w && s[|w|..|w| + |sg|] == sg
    requires s[|w| + |sg|..|w| + |sg| + |d|] == d
    requires |w| + |sg| + |d| == |s| || !IsDigit(s[|w| + |sg| + |d|])
    ensures ScanInt(s) == Some(Signed(sg, d))
  {
    var j := |w| + |sg|;
    assert s[j] == d[0];
    SignAt(s, w, sg);
    DigitRunOver(s, j, d);
  }

  /**
   * When s starts with the white space w and the sign sg, followed by a
   * digit, "%d" skips w and takes sg as the sign.
   */
  lemma SignAt(s: string, w: string, sg: string)
    requires AllSpace(w) && SignText(sg)
    requires |w| + |sg| < |s| && s[..|w|] == w && s[|w|..|w| + |sg|] == sg && IsDigit(s[|w| + |sg|])
    ensures var i := SkipSpace(s, 0);
            && i == |w|
            && (i < |s| && s[i] == '-' <==> sg == "-")
            && (if i < |s| && (s[i] == '-' || s[i] == '+') then i + 1 else i) == |w| + |sg|
  {
    assert s[0..|w|] == w;
    assert sg != "" ==> s[|w|] == sg[0];
    SkipSpaceOver(s, 0, w);
  }

  /**
   * "%d" on white space and an optional sign followed by no digit (and,
   * without a sign, by no further white space or sign) reads nothing: "",
   * "  ", "-x", " x" and "+" all fail.
   */
  lemma ScanIntNoNumber(w: string, sg: string, rest: string)
    requires AllSpace(w) && SignText(sg)
    requires rest == [] || !IsDigit(rest[0])
    requires sg == "" && rest != [] ==> !IsSpace(rest[0]) && rest[0] != '-' && rest[0] != '+'
    ensures ScanInt(w + sg + rest) == None
  {
    var s := w + sg + rest;
    assert s[0..|w|] == w;
    assert |w| < |s| ==> s[|w|] == if sg == "" then rest[0] else sg[0];
    SkipSpaceOver(s, 0, w);
    var j := |w| + |sg|;
    assert j < |s| ==> s[j] == rest[0];
  }

  /**
   * Every text splits into the white space "%d" skips, the sign it
   * accepts, the digits it reads and the rest; it reads a value exactly
   * when there is at least one digit. With ScanIntValue and
   * ScanIntNoNumber this characterises ScanInt on all inputs.
   */
  lemma ScanIntShape(s: string) returns (w: string, sg: string, d: string, rest: string)
    ensures s == w + sg + d + rest
    ensures AllSpace(w) && SignText(sg) && AllDigits(d)
    ensures rest == [] || !IsDigit(rest[0])
    ensures sg == "" && d == [] && rest != [] ==> !IsSpace(rest[0]) && rest[0] != '-' && rest[0] != '+'
    ensures ScanInt(s) == if d == [] then None else Some(Signed(sg, d))
  {
    var i := SkipSpace(s, 0);
    var j := if i < |s| && (s[i] == '-' || s[i] == '+') then i + 1 else i;
    var k := DigitRun(s, j);
    w, sg, d, rest := s[..i], s[i..j], s[j..k], s[k..];
    assert AllSpace(w) by {
      forall x | 0 <= x < |w| ensures IsSpace(w[x]) {
        assert w[x] == s[x];
      }
    }
    if j == i + 1 {
      assert sg == [s[i]];
    } else {
      assert sg == [];
    }
    assert rest != [] ==> rest[0] == s[k];
    assert w + sg == s[..j];
    assert w + sg + d == s[..k];
    assert w + sg + d + rest == s;
    if d == [] {
      assert w + sg + d == w + sg;
      ScanIntNoNumber(w, sg, rest);
    } else {
      ScanIntValue(w, sg, d, rest);
    }
  }
}
