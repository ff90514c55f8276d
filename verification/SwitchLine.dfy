/** The lines of /switches/list and /switches/add: list_text() and parse_buf() of src/switch_handler.cpp. */
module SwitchLine {
  import opened Ctype
  import opened Wrappers

  const INT_MAX := 0x7fffffff
  const SW_ON_PRESS_OFF := 1
  const SW_COND_DARK := 1

  /** struct _sw_tbl; the fields of its unions in their widths. */
  datatype Entry = Entry(
    srcBus: nat, srcAdr: nat, latch: nat, press: nat, res: nat,
    dstBus: nat, dstAdr: nat, pio: nat, typ: nat,
    secs: nat, onPress: nat, cond: nat)

  predicate InWidth(e: Entry) {
    && e.srcBus < 8 && e.srcAdr < 64 && e.latch < 16 && e.press < 4 && e.res < 2
    && e.dstBus < 8 && e.dstAdr < 256 && e.pio < 8 && e.typ < 4
    && e.secs < 0x10000 && e.onPress < 256 && e.cond < 256
  }

  predicate IsAllOff(e: Entry) {
    e.typ == 0 && e.dstBus == 0 && e.dstAdr == 0 && e.pio == 0
  }

  // ---------- numbers ----------

  function Digit(v: nat): char
    requires v < 10
  {
    '0' + v as char
  }

  /** A number as std::format() prints it. */
  function Dec(n: nat): (s: string)
    ensures s != []
  {
    if n < 10 then [Digit(n)] else Dec(n / 10) + [Digit(n % 10)]
  }

  /** How many digits s starts with. */
  function DigitCount(s: string): (n: nat)
    ensures n <= |s| && (n < |s| ==> !IsDigit(s[n]))
    ensures forall k | 0 <= k < n :: IsDigit(s[k])
  {
    if s == [] || !IsDigit(s[0]) then 0 else
      var n := DigitCount(s[1..]);
      assert forall k | 1 <= k < n + 1 :: s[k] == s[1..][k - 1];
      n + 1
  }

  function Value(s: string): nat
    requires forall k | 0 <= k < |s| :: IsDigit(s[k])
  {
    if s == [] then 0 else
      assert IsDigit(s[|s| - 1]);
      10 * Value(s[..|s| - 1]) + (s[|s| - 1] as int - '0' as int)
  }

  /** std::from_chars() into an int, and what it leaves. Never called at a minus sign. */
  function FromChars(s: string): Option<(nat, string)> {
    var n := DigitCount(s);
    if n == 0 || Value(s[..n]) > INT_MAX then None else Some((Value(s[..n]), s[n..]))
  }

  // ---------- reading ----------

  predicate IsDelimiter(c: char) {
    IsSpace(c) || c == '.' || c == '-' || c == '>'
  }

  function SkipDelimiters(s: string): string {
    if s != [] && IsDelimiter(s[0]) then SkipDelimiters(s[1..]) else s
  }

  function SkipSpace(s: string): string {
    if s != [] && IsSpace(s[0]) then SkipSpace(s[1..]) else s
  }

  /** n numbers with delimiters before them, and what is left. */
  function Numbers(s: string, n: nat): (r: Option<(seq<nat>, string)>)
    ensures r.Some? ==> |r.value.0| == n
    decreases n
  {
    if n == 0 then Some(([], s))
    else
      match FromChars(SkipDelimiters(s))
      case None => None
      case Some((v, rest)) =>
        match Numbers(rest, n - 1)
        case None => None
        case Some((vals, left)) => Some(([v] + vals, left))
  }

  /** Up to n numbers with white space before them, and what is left. */
  function Options(s: string, n: nat): (r: (seq<nat>, string))
    ensures |r.0| <= n
    decreases n
  {
    var t := SkipSpace(s);
    if n == 0 then ([], s)
    else
      match FromChars(t)
      case None => ([], t)
      case Some((v, rest)) => var (vals, left) := Options(rest, n - 1); ([v] + vals, left)
  }

  /** The latch as it is written: 1..8 short, 11..18 long, 21..28 long started. */
  function WithLatch(e: Entry, code: nat): Entry {
    if code > 20 then e.(press := 2, latch := (code - 20) % 16)
    else if code > 10 then e.(press := 1, latch := (code - 10) % 16)
    else e.(press := 0, latch := code % 16)
  }

  function FromNumbers(v: seq<nat>, secs: nat, onPress: nat, cond: nat): Entry
    requires |v| == 6
  {
    var e := Entry(v[0] % 256 % 8, v[1] % 256 % 64, 0, 0, 0, v[3] % 256 % 8, v[4] % 256, v[5] % 256 % 8, 0,
                   secs, onPress, cond);
    WithLatch(e, v[2] % 256)
  }

  predicate StartsDark(s: string) {
    |s| >= 4 && s[..4] == "dark"
  }

  /** A line for all lights off loses its seconds and its condition. */
  function Untimed(e: Entry): Entry {
    if IsAllOff(e) && (e.secs > 0 || e.cond != 0) then e.(secs := 0, onPress := 0, cond := 0) else e
  }

  function Parse(buf: string): Option<Entry> {
    ParseWith(buf, 6, 2)
  }

  /** numbers and options stand for 6 and 2 here and in what follows: as literals the verifier would unfold the
      recursive functions that take them all at once. */
  function ParseWith(buf: string, numbers: nat, options: nat): Option<Entry>
    requires numbers == 6 && options == 2
  {
    if |buf| < 10 then None
    else
      match Numbers(buf, numbers)
      case None => None
      case Some((v, s)) =>
        var (opt, left) := Options(s, options);
        var secs := if |opt| > 0 then opt[0] else 0;
        var onPress := if |opt| > 1 then opt[1] else 0;
        if secs > 0xffff || onPress > SW_ON_PRESS_OFF then None
        else Some(Untimed(FromNumbers(v, secs, onPress, if StartsDark(SkipSpace(left)) then SW_COND_DARK else 0)))
  }

  // ---------- the parser ----------

  method ParseBuf(buf: string) returns (ok: bool, sw: Entry)
    ensures Parse(buf) == if ok then Some(sw) else None
  {
    ok, sw := ParseLine(buf, 6, 2);
  }

  /** ParseBuf() with its 6 and 2 named, see ParseWith. */
  method ParseLine(buf: string, numbers: nat, options: nat) returns (ok: bool, sw: Entry)
    requires numbers == 6 && options == 2
    ensures ParseWith(buf, numbers, options) == if ok then Some(sw) else None
  {
    sw := Entry(0, 0, 0, 0, 0, 0, 0, 0, 0, 0, 0, 0);
    if |buf| < 5 + 5 {
      return false, sw;
    }
    var vals, ptr;
    ok, vals, ptr := ReadNumbers(buf, numbers);
    if !ok {
      return;
    }
    sw := Assign(sw, vals);
    var secs, onPress;
    secs, onPress, ptr := ReadOptions(buf, ptr, options);
    if secs > 0xffff || onPress > SW_ON_PRESS_OFF {
      return false, sw;
    }
    sw := sw.(secs := secs, onPress := onPress);
    ptr := SkipSpaces(buf, ptr);
    if StartsDark(buf[ptr..]) {
      sw := sw.(cond := SW_COND_DARK);
    }
    assert sw == FromNumbers(vals, secs, onPress, sw.cond);
    if IsAllOff(sw) && (sw.secs > 0 || sw.cond != 0) {
      sw := sw.(secs := 0, onPress := 0, cond := 0);
    }
  }

  method Assign(zero: Entry, vals: seq<nat>) returns (sw: Entry)
    requires |vals| == 6 && zero == Entry(0, 0, 0, 0, 0, 0, 0, 0, 0, 0, 0, 0)
    ensures sw == FromNumbers(vals, 0, 0, 0)
  {
    sw := zero;
    sw := sw.(srcBus := vals[0] % 256 % 8, srcAdr := vals[1] % 256 % 64);
    var latch := vals[2] % 256;
    if latch > 20 {
      sw := sw.(press := 2, latch := (latch - 20) % 16);
    } else if latch > 10 {
      sw := sw.(press := 1, latch := (latch - 10) % 16);
    } else {
      sw := sw.(press := 0, latch := latch % 16);
    }
    sw := sw.(dstBus := vals[3] % 256 % 8, dstAdr := vals[4] % 256, pio := vals[5] % 256 % 8);
  }

  method ReadNumbers(buf: string, n: nat) returns (ok: bool, vals: seq<nat>, ptr: nat)
    ensures ptr <= |buf| && (ok ==> |vals| == n)
    ensures Numbers(buf, n) == if ok then Some((vals, buf[ptr..])) else None
  {
    ptr, vals := 0, [];
    assert buf[0..] == buf;
    BehindNone(Numbers(buf, n));
    for i := 0 to n
      invariant ptr <= |buf| && |vals| == i
      invariant Numbers(buf, n) == Behind(vals, Numbers(buf[ptr..], n - i))
    {
      ghost var at := ptr;
      NextNumber(vals, buf[at..], n - i);
      while ptr < |buf| && IsDelimiter(buf[ptr])
        invariant ptr <= |buf| && SkipDelimiters(buf[at..]) == SkipDelimiters(buf[ptr..])
      {
        assert buf[ptr..][1..] == buf[ptr + 1..];
        ptr := ptr + 1;
      }
      var got := FromChars(buf[ptr..]);
      if got.None? {
        return false, vals, ptr;
      }
      vals := vals + [got.value.0];
      ptr := |buf| - |got.value.1|;
      assert got.value.1 == buf[ptr..];
    }
    assert vals + [] == vals;
    ok := true;
  }

  lemma BehindNone(r: Option<(seq<nat>, string)>)
    ensures Behind([], r) == r
  {
    assert r.Some? ==> [] + r.value.0 == r.value.0;
  }

  /** What is read behind what was read before. */
  function Behind(vals: seq<nat>, r: Option<(seq<nat>, string)>): Option<(seq<nat>, string)> {
    if r.Some? then Some((vals + r.value.0, r.value.1)) else None
  }

  lemma NextNumber(vals: seq<nat>, s: string, n: nat)
    requires n > 0
    ensures var r := FromChars(SkipDelimiters(s));
            Behind(vals, Numbers(s, n)) == if r.None? then None else Behind(vals + [r.value.0], Numbers(r.value.1, n - 1))
  {
    var r := FromChars(SkipDelimiters(s));
    if r.Some? {
      var more := Numbers(r.value.1, n - 1);
      if more.Some? {
        assert vals + ([r.value.0] + more.value.0) == vals + [r.value.0] + more.value.0;
      }
    }
  }

  lemma NextOption(vals: seq<nat>, s: string, n: nat)
    requires n > 0
    ensures var r := FromChars(SkipSpace(s)); var all := Options(s, n);
            if r.None? then all == ([], SkipSpace(s))
            else var more := Options(r.value.1, n - 1); vals + all.0 == vals + [r.value.0] + more.0 && all.1 == more.1
  {
  }

  method SkipSpaces(buf: string, from: nat) returns (ptr: nat)
    requires from <= |buf|
    ensures from <= ptr <= |buf| && buf[ptr..] == SkipSpace(buf[from..])
  {
    ptr := from;
    while ptr < |buf| && IsSpace(buf[ptr])
      invariant from <= ptr <= |buf| && SkipSpace(buf[from..]) == SkipSpace(buf[ptr..])
    {
      assert buf[ptr..][1..] == buf[ptr + 1..];
      ptr := ptr + 1;
    }
  }

  /** [secs] [on_press], each only when it is a number; n is 2, see ParseWith. */
  method ReadOptions(buf: string, from: nat, n: nat) returns (secs: nat, onPress: nat, ptr: nat)
    requires from <= |buf| && n == 2
    ensures ptr <= |buf|
    ensures var (opt, left) := Options(buf[from..], n);
            && secs == (if |opt| > 0 then opt[0] else 0) && onPress == (if |opt| > 1 then opt[1] else 0)
            && SkipSpace(left) == SkipSpace(buf[ptr..])
  {
    var opt := [0, 0];
    ptr := from;
    ghost var seen: seq<nat> := [];
    var i := 0;
    while i < n
      invariant i <= n && ptr <= |buf| && |opt| == 2 && |seen| == i
      invariant Options(buf[from..], n).0 == seen + Options(buf[ptr..], n - i).0
      invariant Options(buf[from..], n).1 == Options(buf[ptr..], n - i).1
      invariant forall k | 0 <= k < 2 :: opt[k] == if k < i then seen[k] else 0
    {
      NextOption(seen, buf[ptr..], n - i);
      ptr := SkipSpaces(buf, ptr);
      if ptr == |buf| || !IsDigit(buf[ptr]) {
        break;
      }
      var got := FromChars(buf[ptr..]);
      if got.None? {
        break;
      }
      opt := opt[i := got.value.0];
      seen := seen + [got.value.0];
      ptr := |buf| - |got.value.1|;
      assert got.value.1 == buf[ptr..];
      i := i + 1;
    }
    secs, onPress := opt[0], opt[1];
  }
}
