/** What list_text() prints, parse_buf() takes back (src/switch_handler.cpp). */
module SwitchLineRoundTrip {
  import opened Ctype
  import opened SwitchLine
  import opened Wrappers

  // ---------- printing ----------

  function LatchCode(e: Entry): nat {
    if e.press == 1 then e.latch + 10 else if e.press == 2 then e.latch + 20 else e.latch
  }

  /** Numbers with their separators before them, and what follows. */
  function Pieces(seps: seq<string>, ns: seq<nat>, tail: string): string
    requires |seps| == |ns|
  {
    if ns == [] then tail else seps[0] + (Dec(ns[0]) + Pieces(seps[1..], ns[1..], tail))
  }

  function Separators(): (s: seq<string>)
    ensures |s| == 6
  {
    ["", ".", ".", " -> ", ".", "."]
  }

  function Numbered(e: Entry): (ns: seq<nat>)
    ensures |ns| == 6
  {
    [e.srcBus, e.srcAdr, LatchCode(e), e.dstBus, e.dstAdr, e.pio]
  }

  function DarkText(e: Entry, rest: string): string {
    if e.cond == SW_COND_DARK then " " + ("dark" + (":" + rest)) else ":" + rest
  }

  function TimingText(e: Entry, rest: string): string {
    if e.secs > 0 then " " + (Dec(e.secs) + (" " + (Dec(e.onPress) + DarkText(e, rest)))) else DarkText(e, rest)
  }

  /** The line of one switch; rest: its labels. */
  function Line(e: Entry, rest: string): string {
    Pieces(Separators(), Numbered(e), TimingText(e, rest))
  }

  // ---------- one number ----------

  lemma {:induction false} DecIsNumber(n: nat)
    ensures (forall k | 0 <= k < |Dec(n)| :: IsDigit(Dec(n)[k])) && Value(Dec(n)) == n
  {
    if n < 10 {
      assert Value([Digit(n)][..0]) == 0;
    } else {
      DecIsNumber(n / 10);
      assert Dec(n)[..|Dec(n)| - 1] == Dec(n / 10);
    }
  }

  predicate NoDigitFirst(s: string) {
    s == [] || !IsDigit(s[0])
  }

  lemma {:induction false} DigitCountIs(digits: string, rest: string)
    requires NoDigitFirst(rest) && forall k | 0 <= k < |digits| :: IsDigit(digits[k])
    ensures DigitCount(digits + rest) == |digits|
  {
    if digits == [] {
      assert digits + rest == rest;
    } else {
      assert (digits + rest)[1..] == digits[1..] + rest;
      DigitCountIs(digits[1..], rest);
    }
  }

  lemma FromCharsDec(n: nat, rest: string)
    requires NoDigitFirst(rest)
    ensures FromChars(Dec(n) + rest) == if n <= INT_MAX then Some((n, rest)) else None
  {
    DecIsNumber(n);
    DigitCountIs(Dec(n), rest);
    assert (Dec(n) + rest)[..|Dec(n)|] == Dec(n) && (Dec(n) + rest)[|Dec(n)|..] == rest;
  }

  lemma {:induction false} SkipsDelimiters(sep: string, s: string)
    requires (forall k | 0 <= k < |sep| :: IsDelimiter(sep[k])) && (s == [] || !IsDelimiter(s[0]))
    ensures SkipDelimiters(sep + s) == s
  {
    if sep == [] {
      assert sep + s == s;
    } else {
      assert (sep + s)[1..] == sep[1..] + s;
      SkipsDelimiters(sep[1..], s);
    }
  }

  // ---------- all six ----------

  ghost predicate Separates(sep: string) {
    sep != [] && forall k | 0 <= k < |sep| :: IsDelimiter(sep[k])
  }

  lemma PiecesStart(seps: seq<string>, ns: seq<nat>, tail: string)
    requires |seps| == |ns| && NoDigitFirst(tail) && forall i | 0 <= i < |seps| :: Separates(seps[i])
    ensures NoDigitFirst(Pieces(seps, ns, tail))
  {
    assert ns != [] ==> Separates(seps[0]) && IsDelimiter(seps[0][0]);
  }

  /** Each fits an int. */
  predicate InRange(ns: seq<nat>) {
    ns == [] || (ns[0] <= 0x7fff_ffff && InRange(ns[1..]))
  }

  lemma FirstNumber(sep: string, v: nat, rest: string)
    requires (sep == [] || Separates(sep)) && NoDigitFirst(rest)
    ensures FromChars(SkipDelimiters(sep + (Dec(v) + rest))) == if v <= INT_MAX then Some((v, rest)) else None
  {
    DecIsNumber(v);
    SkipsDelimiters(sep, Dec(v) + rest);
    FromCharsDec(v, rest);
  }

  /** Anything but a digit, a delimiter or white space where a number is due makes the line an error. */
  lemma StrangerRefused(sep: string, c: char, rest: string, n: nat)
    requires n > 0 && (sep == [] || Separates(sep))
    requires !IsDigit(c) && !IsSpace(c) && c != '.' && c != '-' && c != '>'
    ensures Numbers(sep + ([c] + rest), n) == None
  {
    SkipsDelimiters(sep, [c] + rest);
  }

  /** All are read, or one of them is past the range of an int and the line an error. */
  lemma {:induction false} NumbersRead(seps: seq<string>, ns: seq<nat>, tail: string)
    requires |seps| == |ns| && NoDigitFirst(tail)
    requires forall i | 0 < i < |seps| :: Separates(seps[i])
    requires seps != [] ==> seps[0] == [] || Separates(seps[0])
    ensures Numbers(Pieces(seps, ns, tail), |ns|) == if InRange(ns) then Some((ns, tail)) else None
    decreases |ns|
  {
    if ns != [] {
      PiecesStart(seps[1..], ns[1..], tail);
      FirstNumber(seps[0], ns[0], Pieces(seps[1..], ns[1..], tail));
      NumbersRead(seps[1..], ns[1..], tail);
      assert [ns[0]] + ns[1..] == ns;
    }
  }

  // ---------- timing ----------

  lemma SpaceThen(s: string)
    requires s == [] || !IsSpace(s[0])
    ensures SkipSpace(" " + s) == s && SkipSpace(s) == s
  {
    assert (" " + s)[1..] == s;
  }

  lemma NoOption(s: string, n: nat)
    requires NoDigitFirst(SkipSpace(s))
    ensures Options(s, n).0 == [] && SkipSpace(Options(s, n).1) == SkipSpace(s)
  {
    SkipSpaceTwice(s);
    assert DigitCount(SkipSpace(s)) == 0;
  }

  lemma {:induction false} SkipSpaceTwice(s: string)
    ensures SkipSpace(SkipSpace(s)) == SkipSpace(s)
  {
    if s != [] && IsSpace(s[0]) {
      SkipSpaceTwice(s[1..]);
    }
  }

  lemma OneOption(v: nat, rest: string, n: nat)
    requires n > 0 && v <= INT_MAX && NoDigitFirst(rest)
    ensures var (more, left) := Options(rest, n - 1); Options(" " + (Dec(v) + rest), n) == ([v] + more, left)
  {
    DecIsNumber(v);
    SpaceThen(Dec(v) + rest);
    FromCharsDec(v, rest);
  }

  lemma DarkRead(e: Entry, rest: string)
    ensures NoDigitFirst(DarkText(e, rest)) && NoDigitFirst(SkipSpace(DarkText(e, rest)))
    ensures StartsDark(SkipSpace(DarkText(e, rest))) <==> e.cond == SW_COND_DARK
  {
    if e.cond == SW_COND_DARK {
      var s := "dark" + (":" + rest);
      SpaceThen(s);
      assert s[..4] == "dark";
    } else {
      SpaceThen(":" + rest);
    }
  }

  lemma TimingRead(e: Entry, rest: string, n: nat)
    requires InWidth(e) && n == 2
    ensures var (opt, left) := Options(TimingText(e, rest), n);
            && opt == (if e.secs > 0 then [e.secs, e.onPress] else [])
            && (StartsDark(SkipSpace(left)) <==> e.cond == SW_COND_DARK)
    ensures NoDigitFirst(TimingText(e, rest))
  {
    var dark := DarkText(e, rest);
    DarkRead(e, rest);
    if e.secs > 0 {
      OneOption(e.secs, " " + (Dec(e.onPress) + dark), n);
      OneOption(e.onPress, dark, n - 1);
      assert Options(dark, n - 1 - 1) == ([], dark);
    } else {
      NoOption(dark, n);
    }
  }

  // ---------- the whole line ----------

  /** What is read from a printed line. */
  function ReadBack(e: Entry): Option<Entry> {
    if e.secs > 0 && e.onPress > SW_ON_PRESS_OFF then None
    else Some(Untimed(FromNumbers(Numbered(e), e.secs, if e.secs > 0 then e.onPress else 0,
                                  if e.cond == SW_COND_DARK then SW_COND_DARK else 0)))
  }

  /** What any line reads as; numbers and options are 6 and 2, see ParseWith. */
  lemma LineReadBack(e: Entry, rest: string, numbers: nat, options: nat)
    requires InWidth(e) && numbers == 6 && options == 2
    ensures ParseWith(Line(e, rest), numbers, options) == ReadBack(e)
  {
    TimingRead(e, rest, options);
    SixRead(e, rest, numbers);
    ParseParts(Line(e, rest), numbers, options, Numbered(e), TimingText(e, rest), Options(TimingText(e, rest), options));
  }

  lemma SixRead(e: Entry, rest: string, numbers: nat)
    requires InWidth(e) && numbers == 6 && NoDigitFirst(TimingText(e, rest))
    ensures |Line(e, rest)| >= 10 && Numbers(Line(e, rest), numbers) == Some((Numbered(e), TimingText(e, rest)))
  {
    SmallInRange(Numbered(e));
    NumbersRead(Separators(), Numbered(e), TimingText(e, rest));
    PiecesLong(Separators(), Numbered(e), TimingText(e, rest), 3);
  }

  lemma {:induction false} SmallInRange(ns: seq<nat>)
    requires forall i | 0 <= i < |ns| :: ns[i] <= INT_MAX
    ensures InRange(ns)
    decreases |ns|
  {
    if ns != [] {
      SmallInRange(ns[1..]);
    }
  }

  lemma ParseParts(buf: string, numbers: nat, options: nat, v: seq<nat>, s: string, timing: (seq<nat>, string))
    requires numbers == 6 && options == 2 && |buf| >= 10
    requires Numbers(buf, numbers) == Some((v, s)) && Options(s, options) == timing
    ensures var secs := if |timing.0| > 0 then timing.0[0] else 0; var onPress := if |timing.0| > 1 then timing.0[1] else 0;
            ParseWith(buf, numbers, options) ==
            if secs > 0xffff || onPress > SW_ON_PRESS_OFF then None
            else Some(Untimed(FromNumbers(v, secs, onPress, if StartsDark(SkipSpace(timing.1)) then SW_COND_DARK else 0)))
  {
  }

  lemma {:induction false} PiecesLong(seps: seq<string>, ns: seq<nat>, tail: string, i: nat)
    requires i < |seps| == |ns|
    ensures |Pieces(seps, ns, tail)| >= |ns| + |seps[i]|
    decreases |ns|
  {
    if |ns| > 1 {
      PiecesLong(seps[1..], ns[1..], tail, if i > 0 then i - 1 else 0);
    }
  }

  // ---------- lines as they are typed ----------

  ghost predicate Gap(g: string) {
    g != [] && forall k | 0 <= k < |g| :: IsSpace(g[k])
  }

  ghost predicate Gaps(gs: seq<string>) {
    gs == [] || (Gap(gs[0]) && Gaps(gs[1..]))
  }

  lemma {:induction false} SkipsSpaces(gap: string, s: string)
    requires (forall k | 0 <= k < |gap| :: IsSpace(gap[k])) && (s == [] || !IsSpace(s[0]))
    ensures SkipSpace(gap + s) == s
  {
    if gap == [] {
      assert gap + s == s;
    } else {
      assert (gap + s)[1..] == gap[1..] + s;
      SkipsSpaces(gap[1..], s);
    }
  }

  lemma GapsStart(gaps: seq<string>, opts: seq<nat>, rest: string)
    requires |gaps| == |opts| && NoDigitFirst(rest) && Gaps(gaps)
    ensures NoDigitFirst(Pieces(gaps, opts, rest))
  {
    assert opts != [] ==> Gap(gaps[0]) && IsSpace(gaps[0][0]);
  }

  lemma TypedOption(gap: string, v: nat, more: string, n: nat)
    requires Gap(gap) && n > 0 && v <= INT_MAX && NoDigitFirst(more)
    ensures var r := Options(more, n - 1); Options(gap + (Dec(v) + more), n) == ([v] + r.0, r.1)
  {
    DecIsNumber(v);
    SkipsSpaces(gap, Dec(v) + more);
    FromCharsDec(v, more);
  }

  /** Up to n options, each behind white space. */
  lemma {:induction false} OptionsRead(gaps: seq<string>, opts: seq<nat>, rest: string, n: nat)
    requires |gaps| == |opts| <= n && NoDigitFirst(rest) && (|opts| < n ==> NoDigitFirst(SkipSpace(rest)))
    requires Gaps(gaps) && InRange(opts)
    ensures var r := Options(Pieces(gaps, opts, rest), n); r.0 == opts && SkipSpace(r.1) == SkipSpace(rest)
    decreases |opts|
  {
    if opts == [] {
      if n > 0 {
        NoOption(rest, n);
      }
    } else {
      GapsStart(gaps[1..], opts[1..], rest);
      TypedOption(gaps[0], opts[0], Pieces(gaps[1..], opts[1..], rest), n);
      OptionsRead(gaps[1..], opts[1..], rest, n - 1);
      assert [opts[0]] + opts[1..] == opts;
    }
  }

  /** The fields that six numbers and what follows them stand for. */
  ghost predicate Says(e: Entry, ns: seq<nat>, opts: seq<nat>, dark: bool)
    requires |ns| == 6
  {
    var latch, allOff := ns[2] % 256, ns[3] % 8 == 0 && ns[4] % 256 == 0 && ns[5] % 8 == 0;
    && e.srcBus == ns[0] % 8 && e.srcAdr == ns[1] % 64 && e.res == 0
    && e.press == (if latch <= 10 then 0 else if latch <= 20 then 1 else 2) && e.latch == (latch - 10 * e.press) % 16
    && e.dstBus == ns[3] % 8 && e.dstAdr == ns[4] % 256 && e.pio == ns[5] % 8 && e.typ == 0
    && e.secs == (if |opts| > 0 && !allOff then opts[0] else 0)
    && e.cond == (if dark && !allOff then 1 else 0)
    && e.onPress == (if |opts| > 1 && !(allOff && (dark || opts[0] > 0)) then opts[1] else 0)
  }

  /** Any line as it may be typed: six numbers behind any delimiters, the first one behind none maybe, up to two
      more behind white space, and any text. It is taken exactly if each number fits an int, the first option
      is below 2^16 and the second 0 or 1, and then says that; "dark" is what that text starts with, white space aside. A line for all lights
      takes neither timing nor condition. */
  lemma TypedLine(seps: seq<string>, ns: seq<nat>, gaps: seq<string>, opts: seq<nat>, rest: string, numbers: nat, options: nat)
    requires numbers == 6 && options == 2 && |seps| == |ns| == numbers && |gaps| == |opts| <= options
    requires forall i | 0 < i < numbers :: Separates(seps[i])
    requires seps[0] == [] || Separates(seps[0])
    requires Gaps(gaps) && InRange(opts) && NoDigitFirst(rest)
    requires |opts| < options ==> NoDigitFirst(SkipSpace(rest))
    requires |Pieces(seps, ns, Pieces(gaps, opts, rest))| >= 10
    ensures var r := ParseWith(Pieces(seps, ns, Pieces(gaps, opts, rest)), numbers, options);
            && (r.Some? <==> InRange(ns) && (|opts| > 0 ==> opts[0] < 0x10000) && (|opts| > 1 ==> opts[1] <= 1))
            && (r.Some? ==> Says(r.value, ns, opts, "dark" <= SkipSpace(rest)))
  {
    var tail := Pieces(gaps, opts, rest);
    GapsStart(gaps, opts, rest);
    NumbersRead(seps, ns, tail);
    OptionsRead(gaps, opts, rest, options);
    var timing := Options(tail, options);
    if !InRange(ns) {
      return;
    }
    ParseParts(Pieces(seps, ns, tail), numbers, options, ns, tail, timing);
    var secs, onPress := if |opts| > 0 then opts[0] else 0, if |opts| > 1 then opts[1] else 0;
    DarkPrefix(SkipSpace(rest));
    if secs <= 0xffff && onPress <= 1 {
      SaysThat(ns, opts, "dark" <= SkipSpace(rest));
    }
  }

  lemma DarkPrefix(s: string)
    ensures StartsDark(s) <==> "dark" <= s
  {
    assert "dark" <= s ==> s[..4] == "dark";
  }

  lemma SaysThat(ns: seq<nat>, opts: seq<nat>, dark: bool)
    requires |ns| == 6 && |opts| <= 2
    ensures var secs, onPress := if |opts| > 0 then opts[0] else 0, if |opts| > 1 then opts[1] else 0;
            Says(Untimed(FromNumbers(ns, secs, onPress, if dark then 1 else 0)), ns, opts, dark)
  {
    LowBits(ns[0]);
    LowBits(ns[1]);
    LowBits(ns[3]);
    LowBits(ns[5]);
    var e := Entry(ns[0] % 8, ns[1] % 64, 0, 0, 0, ns[3] % 8, ns[4] % 256, ns[5] % 8, 0,
                   if |opts| > 0 then opts[0] else 0, if |opts| > 1 then opts[1] else 0, if dark then 1 else 0);
    LatchSays(e, ns[2] % 256);
  }

  lemma LatchSays(e: Entry, code: nat)
    ensures var r := WithLatch(e, code); var press := if code <= 10 then 0 else if code <= 20 then 1 else 2;
            r == e.(press := press, latch := (code - 10 * press) % 16)
  {
  }

  lemma LowBits(n: nat)
    ensures n % 256 % 8 == n % 8 && n % 256 % 64 == n % 64
  {
  }

  // ---------- exactly when ----------

  /** The latch numbers that keep their press time. */
  predicate LatchWritable(e: Entry) {
    || (e.press == 0 && e.latch <= 10)
    || (e.press == 1 && 1 <= e.latch <= 10)
    || (e.press == 2 && 1 <= e.latch)
  }

  /** What a line can say. */
  predicate Writable(e: Entry) {
    && LatchWritable(e) && e.res == 0 && e.typ == 0
    && e.onPress <= SW_ON_PRESS_OFF && (e.secs == 0 ==> e.onPress == 0)
    && e.cond <= SW_COND_DARK && (IsAllOff(e) ==> e.secs == 0 && e.cond == 0)
  }

  lemma LatchReadBack(e: Entry, w: Entry)
    requires InWidth(e)
    ensures var r := WithLatch(w, LatchCode(e) % 256); (r.latch == e.latch && r.press == e.press) <==> LatchWritable(e)
  {
  }

  lemma FieldsReadBack(e: Entry, secs: nat, onPress: nat, cond: nat)
    requires InWidth(e)
    ensures FromNumbers(Numbered(e), secs, onPress, cond) ==
            WithLatch(Entry(e.srcBus, e.srcAdr, 0, 0, 0, e.dstBus, e.dstAdr, e.pio, 0, secs, onPress, cond), LatchCode(e) % 256)
  {
  }

  /** Printed and read again, with any text after its colon, a switch is the same exactly when a line can say
      it. */
  lemma RoundTrip(e: Entry, rest: string)
    requires InWidth(e)
    ensures Parse(Line(e, rest)) == Some(e) <==> Writable(e)
  {
    LineReadBack(e, rest, 6, 2);
    ReadBackSame(e);
  }

  lemma ReadBackSame(e: Entry)
    requires InWidth(e)
    ensures ReadBack(e) == Some(e) <==> Writable(e)
  {
    var onPress, cond := if e.secs > 0 then e.onPress else 0, if e.cond == SW_COND_DARK then SW_COND_DARK else 0;
    FieldsReadBack(e, e.secs, onPress, cond);
    LatchReadBack(e, Entry(e.srcBus, e.srcAdr, 0, 0, 0, e.dstBus, e.dstAdr, e.pio, 0, e.secs, onPress, cond));
  }
}
