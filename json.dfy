/**
 * The message scanner of json.c: locate the outermost brace-delimited
 * object in a receive buffer, find a quoted tag inside it and extract the
 * double-quoted string that follows. Pointers are indices into `mem`, the
 * memory reachable from the start of the buffer; what lies beyond the
 * received bytes is part of `mem` because the C code reads it.
 */
module Json {
  import opened Options
  import opened CLib

  /** JsonObject: the index of the opening '{' and of the matching '}'. */
  datatype JsonObject = JsonObject(start: nat, end: nat)

  predicate WellFormed(mem: seq<char>, obj: JsonObject) {
    obj.start < obj.end < |mem| && mem[obj.start] == '{' && mem[obj.end] == '}'
  }

  function Delta(c: char): int {
    if c == '{' then 1 else if c == '}' then -1 else 0
  }

  /** Brace depth after scanning mem[lo..hi]; braces inside quotes count too. */
  function Depth(mem: seq<char>, lo: nat, hi: nat): int
    requires lo <= hi <= |mem|
    decreases hi
  {
    if hi == lo then 0 else Depth(mem, lo, hi - 1) + Delta(mem[hi - 1])
  }

  /**
   * The first p' >= p below dataLen at which the depth counted from the
   * '{' at s returns to 0.
   */
  function CloseFrom(mem: seq<char>, s: nat, p: nat, dataLen: nat): (r: Option<nat>)
    requires s <= p <= dataLen <= |mem| && s < |mem| && mem[s] == '{'
    requires p == s || Depth(mem, s, p) > 0
    ensures r.Some? ==> p <= r.value < dataLen && Depth(mem, s, r.value + 1) == 0
    ensures r.Some? ==> forall t :: p < t <= r.value ==> Depth(mem, s, t) > 0
    ensures r.None? ==> forall t :: p < t <= dataLen ==> Depth(mem, s, t) > 0
    decreases dataLen - p
  {
    if p == dataLen then None
    else if Depth(mem, s, p + 1) == 0 then Some(p)
    else CloseFrom(mem, s, p + 1, dataLen)
  }

  /**
   * What jsonFindObject needs to stay inside defined memory: strchr must meet
   * a NUL, and a '{' it finds must not lie past the received bytes (the scan
   * loop only stops on reaching data + dataLen).
   */
  predicate SearchDefined(mem: seq<char>, dataLen: nat) {
    && dataLen <= |mem|
    && HasNul(mem, 0)
    && (StrChr(mem, 0, '{').Some? ==> StrChr(mem, 0, '{').value <= dataLen)
  }

  /**
   * The object jsonFindObject reports: it opens at the first '{' and closes
   * at the first '}' that brings the depth back to 0 within dataLen.
   */
  function ObjectSpan(mem: seq<char>, dataLen: nat): (r: Option<JsonObject>)
    requires SearchDefined(mem, dataLen)
    ensures StrChr(mem, 0, '{').None? ==> r.None?
    ensures r.Some? ==> && StrChr(mem, 0, '{') == Some(r.value.start)
                        && WellFormed(mem, r.value) && r.value.end < dataLen
                        && Depth(mem, r.value.start, r.value.end + 1) == 0
                        && forall t :: r.value.start < t <= r.value.end ==>
                             Depth(mem, r.value.start, t) > 0
    ensures r.None? && StrChr(mem, 0, '{').Some? ==>
              var s := StrChr(mem, 0, '{').value;
              forall t :: s < t <= dataLen ==> Depth(mem, s, t) > 0
  {
    match StrChr(mem, 0, '{')
    case None => None
    case Some(s) =>
      match CloseFrom(mem, s, s, dataLen)
      case None => None
      case Some(e) =>
        assert e != s by { assert Depth(mem, s, s + 1) == 1; }
        assert Depth(mem, s, e) > 0;
        Some(JsonObject(s, e))
  }

  /** jsonFindObject: 0 and the object span, or -1 when there is none. */
  method FindObject(mem: seq<char>, dataLen: nat) returns (rc: int, obj: JsonObject)
    requires SearchDefined(mem, dataLen)
    ensures rc == 0 || rc == -1
    ensures rc == 0 <==> ObjectSpan(mem, dataLen).Some?
    ensures rc == 0 ==> ObjectSpan(mem, dataLen) == Some(obj)
  {
    rc, obj := -1, JsonObject(0, 0);
    var brace := StrChr(mem, 0, '{');
    if brace.Some? {
      var start := brace.value;
      var level := 0;
      var p := start;
      while p != dataLen
        invariant start <= p <= dataLen
        invariant level == Depth(mem, start, p)
        invariant p == start || level > 0
        invariant CloseFrom(mem, start, p, dataLen) == CloseFrom(mem, start, start, dataLen)
        decreases dataLen - p
      {
        if mem[p] == '{' {
          level := level + 1;
        } else if mem[p] == '}' {
          level := level - 1;
        }
        if level == 0 {
          rc, obj := 0, JsonObject(start, p);
          return;
        }
        p := p + 1;
      }
    }
  }

  /** The label `"tag"` as snprintf writes it into its 256-byte buffer. */
  function Label(tag: string): (quoted: string)
    ensures 2 <= |quoted| <= 255
  {
    var full := "\"" + tag + "\"";
    if |full| <= 255 then full else full[..255]
  }

  /** A tag of at most 253 characters is quoted whole; a longer one loses its tail. */
  lemma LabelShort(tag: string)
    ensures |tag| <= 253 ==> Label(tag) == "\"" + tag + "\""
    ensures |tag| > 253 ==> Label(tag) == ("\"" + tag)[..255]
  {
    if |tag| > 253 {
      assert ("\"" + tag + "\"")[..255] == ("\"" + tag)[..255];
    }
  }

  /** The first index in [p, end) where the label occurs (FirstLabelFirst, FirstLabelAt). */
  function FirstLabel(mem: seq<char>, p: nat, end: nat, quoted: string): (r: Option<nat>)
    ensures r.Some? ==> p <= r.value < end && RegionIs(mem, r.value, quoted)
    decreases end - p
  {
    if p >= end then None
    else if RegionIs(mem, p, quoted) then Some(p)
    else FirstLabel(mem, p + 1, end, quoted)
  }

  /** No occurrence precedes the one FirstLabel reports; None means none at all. */
  lemma {:induction false} FirstLabelFirst(mem: seq<char>, p: nat, end: nat, quoted: string)
    ensures FirstLabel(mem, p, end, quoted).Some? ==>
              forall k :: p <= k < FirstLabel(mem, p, end, quoted).value ==> !RegionIs(mem, k, quoted)
    ensures FirstLabel(mem, p, end, quoted).None? ==>
              forall k :: p <= k < end ==> !RegionIs(mem, k, quoted)
    decreases end - p
  {
    if p < end && !RegionIs(mem, p, quoted) {
      FirstLabelFirst(mem, p + 1, end, quoted);
    }
  }

  /** Conversely, an occurrence with none before it is the one FirstLabel reports. */
  lemma {:induction false} FirstLabelAt(mem: seq<char>, p: nat, end: nat, quoted: string, i: nat)
    requires p <= i < end && RegionIs(mem, i, quoted)
    requires forall k :: p <= k < i ==> !RegionIs(mem, k, quoted)
    ensures FirstLabel(mem, p, end, quoted) == Some(i)
    decreases i - p
  {
    if p < i {
      FirstLabelAt(mem, p + 1, end, quoted, i);
    }
  }

  /** The characters jsonFindTag skips between a tag and its value. */
  predicate IsSep(c: char) {
    IsSpace(c) || c == ':'
  }

  /** The first index in [q, end) that is not a separator. */
  function SkipSeparators(mem: seq<char>, q: nat, end: nat): (r: Option<nat>)
    requires end <= |mem|
    ensures r.Some? ==> q <= r.value < end && !IsSep(mem[r.value])
    decreases end - q
  {
    if q >= end then None
    else if !IsSep(mem[q]) then Some(q)
    else SkipSeparators(mem, q + 1, end)
  }

  /** Only separators precede the index SkipSeparators reports; None means only separators up to end. */
  lemma {:induction false} SkipSeparatorsFirst(mem: seq<char>, q: nat, end: nat)
    requires end <= |mem|
    ensures SkipSeparators(mem, q, end).Some? ==>
              forall k :: q <= k < SkipSeparators(mem, q, end).value ==> IsSep(mem[k])
    ensures SkipSeparators(mem, q, end).None? ==> forall k :: q <= k < end ==> IsSep(mem[k])
    decreases end - q
  {
    if q < end && IsSep(mem[q]) {
      SkipSeparatorsFirst(mem, q + 1, end);
    }
  }

  /** Conversely, a non-separator with only separators before it is what SkipSeparators reports. */
  lemma {:induction false} SkipSeparatorsAt(mem: seq<char>, q: nat, end: nat, i: nat)
    requires q <= i < end <= |mem| && !IsSep(mem[i])
    requires forall k :: q <= k < i ==> IsSep(mem[k])
    ensures SkipSeparators(mem, q, end) == Some(i)
    decreases i - q
  {
    if q < i {
      SkipSeparatorsAt(mem, q + 1, end, i);
    }
  }

  /**
   * Where jsonFindTag says the tag's value starts: after the FIRST
   * occurrence of the label that starts inside the object, the first
   * character that is neither white space nor ':', strictly before the
   * closing brace. A later occurrence is never considered.
   */
  function TagPos(mem: seq<char>, obj: JsonObject, tag: string): (r: Option<nat>)
    requires WellFormed(mem, obj)
    ensures r.Some? ==> obj.start < r.value < obj.end && !IsSep(mem[r.value])
  {
    var quoted := Label(tag);
    match FirstLabel(mem, obj.start + 1, obj.end, quoted)
    case None => None
    case Some(p) => SkipSeparators(mem, p + |quoted|, obj.end)
  }

  /** jsonFindTag. */
  method FindTag(mem: seq<char>, obj: JsonObject, tag: string) returns (r: Option<nat>)
    requires WellFormed(mem, obj)
    ensures r == TagPos(mem, obj, tag)
  {
    var quoted := Label(tag);
    var len := |quoted|;
    var p := obj.start + 1;
    while p < obj.end
      invariant obj.start + 1 <= p <= obj.end
      invariant FirstLabel(mem, p, obj.end, quoted) == FirstLabel(mem, obj.start + 1, obj.end, quoted)
      decreases obj.end - p
    {
      if RegionIs(mem, p, quoted) {
        assert TagPos(mem, obj, tag) == SkipSeparators(mem, p + len, obj.end);
        var q := p + len;
        while q < obj.end
          invariant p + len <= q
          invariant SkipSeparators(mem, q, obj.end) == TagPos(mem, obj, tag)
          decreases obj.end - q
        {
          if !IsSep(mem[q]) {
            return Some(q);
          }
          q := q + 1;
        }
        // q has reached the closing brace, so the outer loop ends too
        return None;
      }
      p := p + 1;
    }
    return None;
  }

  /**
   * The characters strictly between the first '"' at or after val and the
   * next '"'. Both searches are strchr calls, so they may run past the
   * closing brace and stop at a NUL.
   */
  function QuotedAfter(mem: seq<char>, val: nat): (v: Option<string>)
    requires HasNul(mem, val)
    ensures v.Some? ==> '"' !in v.value && NUL !in v.value
  {
    match StrChr(mem, val, '"')
    case None => None
    case Some(open) =>
      match StrChr(mem, open + 1, '"')
      case None => None
      case Some(close) =>
        StrChrSpan(mem, open + 1, '"');
        Some(mem[open + 1..close])
  }

  /** The value jsonGetTagValue extracts: the quoted text after the tag's value position. */
  function TagValue(mem: seq<char>, obj: JsonObject, tag: string): (v: Option<string>)
    requires WellFormed(mem, obj) && HasNul(mem, obj.end)
    ensures TagPos(mem, obj, tag).None? ==> v.None?
    ensures v.Some? ==> '"' !in v.value && NUL !in v.value
  {
    match TagPos(mem, obj, tag)
    case None => None
    case Some(val) =>
      HasNulEarlier(mem, obj.end, val);
      QuotedAfter(mem, val)
  }

  /** stringify: a fresh NUL-terminated copy of mem[start..end] inclusive. */
  method Stringify(mem: seq<char>, start: nat, end: int) returns (str: array<char>)
    requires start - 1 <= end < |mem|
    ensures fresh(str) && str.Length == end - start + 2
    ensures str[..str.Length - 1] == mem[start..end + 1] && str[str.Length - 1] == NUL
  {
    var len := end - start + 1;
    str := new char[len + 1];
    forall i | 0 <= i < len {
      str[i] := mem[start + i];
    }
    str[len] := NUL;
  }

  /** The two strchr calls of jsonGetTagValue and the copy of what lies between the quotes. */
  method CopyQuoted(mem: seq<char>, val: nat) returns (v: Option<string>)
    requires HasNul(mem, val)
    ensures v == QuotedAfter(mem, val)
  {
    var openQuotes := StrChr(mem, val, '"');
    if openQuotes.Some? {
      var endQuotes := StrChr(mem, openQuotes.value + 1, '"');
      if endQuotes.Some? {
        var str := Stringify(mem, openQuotes.value + 1, endQuotes.value - 1);
        return Some(str[..str.Length - 1]);
      }
    }
    return None;
  }

  /** TagValue is QuotedAfter at the tag's value position, or None without one. */
  lemma TagValueVia(mem: seq<char>, obj: JsonObject, tag: string)
    requires WellFormed(mem, obj) && HasNul(mem, obj.end)
    ensures TagPos(mem, obj, tag).None? ==> TagValue(mem, obj, tag).None?
    ensures TagPos(mem, obj, tag).Some? ==>
              (HasNul(mem, TagPos(mem, obj, tag).value) &&
               TagValue(mem, obj, tag) == QuotedAfter(mem, TagPos(mem, obj, tag).value))
  {
    if TagPos(mem, obj, tag).Some? {
      HasNulEarlier(mem, obj.end, TagPos(mem, obj, tag).value);
    }
  }

  /** jsonGetTagValue. */
  method GetTagValue(mem: seq<char>, obj: JsonObject, tag: string) returns (v: Option<string>)
    requires WellFormed(mem, obj) && HasNul(mem, obj.end)
    ensures v == TagValue(mem, obj, tag)
  {
    var val := FindTag(mem, obj, tag);
    TagValueVia(mem, obj, tag);
    if val.Some? {
      v := CopyQuoted(mem, val.value);
    } else {
      v := None;
    }
  }

  /** Memory holding `"v"` at open, v free of quotes and NULs, yields v. */
  lemma QuotedAfterAt(mem: seq<char>, open: nat, v: string)
    requires HasNul(mem, open) && mem[open] == '"'
    requires RegionIs(mem, open + 1, v) && '"' !in v && NUL !in v
    requires open + 1 + |v| < |mem| && mem[open + 1 + |v|] == '"'
    ensures QuotedAfter(mem, open) == Some(v)
  {
    var close := open + 1 + |v|;
    assert forall k :: open + 1 <= k < close ==> mem[k] != '"' && mem[k] != NUL by {
      forall k | open + 1 <= k < close ensures mem[k] != '"' && mem[k] != NUL {
        assert mem[k] == mem[open + 1..close][k - open - 1] == v[k - open - 1];
      }
    }
    StrChrAt(mem, open, '"', open);
    StrChrAt(mem, open + 1, '"', close);
  }

  /**
   * Conversely to TagPos: the first label occurrence inside the object,
   * followed only by separators up to a non-separator before the closing
   * brace, puts the value there.
   */
  lemma TagPosAt(mem: seq<char>, obj: JsonObject, tag: string, p: nat, val: nat)
    requires WellFormed(mem, obj)
    requires obj.start < p && RegionIs(mem, p, Label(tag))
    requires forall k :: obj.start < k < p ==> !RegionIs(mem, k, Label(tag))
    requires p + |Label(tag)| <= val < obj.end && !IsSep(mem[val])
    requires forall k :: p + |Label(tag)| <= k < val ==> IsSep(mem[k])
    ensures TagPos(mem, obj, tag) == Some(val)
  {
    FirstLabelAt(mem, obj.start + 1, obj.end, Label(tag), p);
    SkipSeparatorsAt(mem, p + |Label(tag)|, obj.end, val);
  }

  /**
   * Round trip: when the first occurrence of `"tag"` inside the object is
   * followed by separators and then `"v"`, with v free of quotes and NULs,
   * jsonGetTagValue returns exactly v.
   */
  lemma TagValueRoundTrip(mem: seq<char>, obj: JsonObject, tag: string, p: nat, sep: string, v: string)
    requires WellFormed(mem, obj) && HasNul(mem, obj.end)
    requires obj.start < p && RegionIs(mem, p, Label(tag))
    requires forall k :: obj.start < k < p ==> !RegionIs(mem, k, Label(tag))
    requires RegionIs(mem, p + |Label(tag)|, sep) && forall i :: 0 <= i < |sep| ==> IsSep(sep[i])
    requires p + |Label(tag)| + |sep| < obj.end && mem[p + |Label(tag)| + |sep|] == '"'
    requires RegionIs(mem, p + |Label(tag)| + |sep| + 1, v) && '"' !in v && NUL !in v
    requires p + |Label(tag)| + |sep| + 1 + |v| < |mem| && mem[p + |Label(tag)| + |sep| + 1 + |v|] == '"'
    ensures TagValue(mem, obj, tag) == Some(v)
  {
    var q := p + |Label(tag)|;
    var open := q + |sep|;
    assert forall k :: q <= k < open ==> IsSep(mem[k]) by {
      forall k | q <= k < open ensures IsSep(mem[k]) {
        assert mem[k] == mem[q..open][k - q] == sep[k - q];
      }
    }
    TagPosAt(mem, obj, tag, p, open);
    TagValueVia(mem, obj, tag);
    QuotedAfterAt(mem, open, v);
  }
}
