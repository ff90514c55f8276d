/** No single wrong character in a record of a HEX file gets past the loader. */
module FwHexErrors {
  import opened Bytes
  import opened Getline
  import opened FwHex
  import opened FwHexMeaning

  // ---------- one byte ----------

  lemma {:induction false} SumChanges(rec: seq<Byte>, k: nat, b: Byte)
    requires k < |rec|
    ensures Sum(rec[k := b]) == Sum(rec) - rec[k] as int + b as int
  {
    var n := |rec| - 1;
    if k == n {
      assert rec[k := b][..n] == rec[..n];
    } else {
      assert rec[k := b][..n] == rec[..n][k := b];
      SumChanges(rec[..n], k, b);
    }
  }

  /** A record with one byte changed is none, whichever byte it is. */
  lemma ChangedByteRejected(rec: seq<Byte>, k: nat, b: Byte)
    requires IsRecord(rec) && k < |rec| && b != rec[k]
    ensures !IsRecord(rec[k := b])
  {
    SumChanges(rec, k, b);
    var d := b as int - rec[k] as int;
    assert Sum(rec[k := b]) == Sum(rec) + d;
  }

  // ---------- one character of a line ----------

  lemma {:induction false} TrimTail(line: string)
    ensures forall k | |Trim(line)| <= k < |line| :: Trimmable(line[k])
  {
    if line != [] && Trimmable(line[|line| - 1]) {
      TrimTail(line[..|line| - 1]);
    }
  }

  lemma {:induction false} TrimIs(line: string, n: nat)
    requires n <= |line| && (n > 0 ==> !Trimmable(line[n - 1]))
    requires forall k | n <= k < |line| :: Trimmable(line[k])
    ensures Trim(line) == line[..n]
  {
    if n < |line| {
      TrimIs(line[..|line| - 1], n);
      assert line[..|line| - 1][..n] == line[..n];
    } else {
      assert line[..n] == line;
    }
  }

  predicate SameDigit(a: char, b: char) {
    IsHexDigit(a) && IsHexDigit(b) && HexValue(a) == HexValue(b)
  }

  /** One digit for another: another byte. */
  lemma DigitChanges(s: string, j: nat, c: char) returns (b: Byte)
    requires |s| % 2 == 0 && AllHex(s) && j < |s| && IsHexDigit(c)
    ensures AllHex(s[j := c])
    ensures HexBytes(s[j := c]) == HexBytes(s)[j / 2 := b] && (b == HexBytes(s)[j / 2] <==> SameDigit(s[j], c))
  {
    var s' := s[j := c];
    assert AllHex(s');
    var k := j / 2;
    b := HexByte(s', k);
    assert HexBytes(s') == HexBytes(s)[k := b] by {
      forall i | 0 <= i < |s| / 2 && i != k
        ensures HexByte(s', i) == HexByte(s, i)
      {
      }
    }
    assert j == 2 * k || j == 2 * k + 1;
  }

  lemma ChangedDigit(t: string, k: nat, c: char)
    requires ReadTrimmed(t).Record? && 0 < k < |t| && IsHexDigit(c)
    ensures ReadTrimmed(t[k := c]) == if SameDigit(t[k], c) then ReadTrimmed(t) else Bad
  {
    var s, t' := t[1..], t[k := c];
    var rec := HexBytes(s);
    assert t'[1..] == s[k - 1 := c];
    var b := DigitChanges(s, k - 1, c);
    if b == rec[(k - 1) / 2] {
      assert rec[(k - 1) / 2 := b] == rec;
    } else {
      ChangedByteRejected(rec, (k - 1) / 2, b);
    }
  }

  lemma ChangedToOther(t: string, k: nat, c: char)
    requires ReadTrimmed(t).Record? && k < |t| && c != t[k] && (k == 0 || !IsHexDigit(c))
    ensures ReadTrimmed(t[k := c]) == Bad
  {
    if k > 0 {
      assert t[k := c][1..][k - 1] == c;
    }
  }

  lemma RecordText(t: string)
    requires ReadTrimmed(t).Record?
    ensures |t| >= 11 && t[0] == ':' && (|t| - 1) % 2 == 0
    ensures forall k | 1 <= k < |t| :: IsHexDigit(t[k])
  {
    assert forall k | 1 <= k < |t| :: t[k] == t[1..][k - 1];
  }

  /** What a record line with character k replaced by c is taken for. */
  lemma ChangedCharacter(line: string, k: nat, c: char)
    requires ReadLine(line).Record? && k < |Trim(line)| && c != line[k]
    ensures ReadLine(line[k := c]) == if k > 0 && SameDigit(line[k], c) then ReadLine(line) else Bad
  {
    var t, line' := Trim(line), line[k := c];
    TrimTail(line);
    RecordText(t);
    if k == |t| - 1 && Trimmable(c) {
      TrimIs(line', k);
    } else {
      TrimIs(line', |t|);
      assert line'[..|t|] == t[k := c];
      if k > 0 && IsHexDigit(c) {
        ChangedDigit(t, k, c);
      } else {
        ChangedToOther(t, k, c);
      }
    }
  }

  /** A newline in a record leaves a bad line: the part before it, or without its colon the part after. */
  lemma BrokenLine(line: string, k: nat)
    requires ReadLine(line).Record? && k < |Trim(line)|
    ensures k > 0 ==> ReadLine(line[..k]) == Bad
    ensures k == 0 ==> line[1..] != [] && ReadLine(line[1..]) == Bad
  {
    if k > 0 {
      HeadIsBad(line, k);
    } else {
      var t := Trim(line);
      TrimTail(line);
      RecordText(t);
      TrimIs(line[1..], |t| - 1);
      assert line[1..][0] == t[1];
    }
  }

  lemma HeadIsBad(line: string, k: nat)
    requires ReadLine(line).Record? && 0 < k < |Trim(line)|
    ensures ReadLine(line[..k]) == Bad
  {
    var t := Trim(line);
    TrimTail(line);
    RecordText(t);
    TrimIs(line[..k], k);
    assert line[..k] == t[..k];
    PrefixIsBad(t, k);
  }

  lemma PrefixIsBad(t: string, k: nat)
    requires ReadTrimmed(t).Record? && 0 < k < |t|
    ensures ReadTrimmed(t[..k]) == Bad
  {
    var s, p := t[1..], t[..k];
    assert p[0] == t[0] && p[1..] == s[..k - 1];
    if |p| >= 11 && (|p| - 1) % 2 == 0 && AllHex(p[1..]) {
      PrefixBytes(s, k - 1);
    }
  }

  lemma PrefixBytes(s: string, n: nat)
    requires |s| % 2 == 0 && AllHex(s) && n <= |s| && n % 2 == 0
    ensures AllHex(s[..n]) && HexBytes(s[..n]) == HexBytes(s)[..n / 2]
  {
  }

  // ---------- one character of a file ----------

  lemma LinesAround(before: string, line: string, after: string)
    requires before == [] || before[|before| - 1] == '\n'
    requires line != [] && '\n' !in line && (after == [] || after[0] == '\n')
    ensures Fields(before + line + after, '\n') ==
            Fields(before, '\n') + [line] + Fields(if after == [] then [] else after[1..], '\n')
  {
    assert before + line + after == before + (line + after);
    FieldsJoin(before, line + after, '\n');
    LineFirst(line, after);
  }

  lemma LineFirst(line: string, after: string)
    requires line != [] && '\n' !in line && (after == [] || after[0] == '\n')
    ensures Fields(line + after, '\n') == [line] + Fields(if after == [] then [] else after[1..], '\n')
  {
    var text := line + after;
    assert text[..|line|] == line;
    assert after != [] ==> text[|line| + 1..] == after[1..];
    FirstField(text, line, if after == [] then [] else after[1..], '\n');
  }

  lemma {:induction false} LoadLinesReplace(l: Loader, a: seq<string>, x: string, y: string, b: seq<string>)
    requires ReadLine(x) == ReadLine(y)
    ensures LoadLines(l, a + [x] + b) == LoadLines(l, a + [y] + b)
    decreases |a|
  {
    var u, v := a + [x] + b, a + [y] + b;
    if a == [] {
      assert u[1..] == b && v[1..] == b;
    } else {
      assert u[1..] == a[1..] + [x] + b && v[1..] == a[1..] + [y] + b;
      if LoadLine(l, a[0]).Ok? {
        LoadLinesReplace(LoadLine(l, a[0]).loader, a[1..], x, y, b);
      }
    }
  }

  /** `line` between newlines or the ends of a file. */
  ghost predicate IsLineOf(before: string, line: string, after: string) {
    && (before == [] || before[|before| - 1] == '\n')
    && '\n' !in line
    && (after == [] || after[0] == '\n')
  }

  lemma BadLineRejected(before: string, line: string, after: string)
    requires IsLineOf(before, line, after) && line != [] && ReadLine(line) == Bad
    ensures ParseResult(before + line + after).Failed?
  {
    var a, b := Fields(before, '\n'), Fields(if after == [] then [] else after[1..], '\n');
    LinesAround(before, line, after);
    assert (a + [line] + b)[|a|] == line;
    ParseMeans(before + line + after);
  }

  lemma SameLineSameResult(before: string, x: string, y: string, after: string)
    requires IsLineOf(before, x, after) && IsLineOf(before, y, after) && x != [] && y != []
    requires ReadLine(x) == ReadLine(y)
    ensures ParseResult(before + x + after) == ParseResult(before + y + after)
  {
    LinesAround(before, x, after);
    LinesAround(before, y, after);
    LoadLinesReplace(START, Fields(before, '\n'), x, y, Fields(if after == [] then [] else after[1..], '\n'));
  }

  /** One character of a record replaced by another: the loader rejects the file then, unless the new
      character is the same digit in the other case, which changes nothing. */
  lemma WrongCharacter(before: string, line: string, after: string, k: nat, c: char)
    requires IsLineOf(before, line, after)
    requires ReadLine(line).Record? && k < |Trim(line)| && c != line[k]
    ensures var r := ParseResult(before + line[k := c] + after);
            if k > 0 && SameDigit(line[k], c) then r == ParseResult(before + line + after) else r.Failed?
  {
    if c == '\n' {
      BrokenLine(line, k);
      if k > 0 {
        SplitAfter(before, line, after, k);
      } else {
        SplitBefore(before, line, after);
      }
    } else {
      ChangedCharacter(line, k, c);
      if k > 0 && SameDigit(line[k], c) {
        SameLineSameResult(before, line[k := c], line, after);
      } else {
        BadLineRejected(before, line[k := c], after);
      }
    }
  }

  lemma SplitAfter(before: string, line: string, after: string, k: nat)
    requires IsLineOf(before, line, after) && 0 < k < |line| && ReadLine(line[..k]) == Bad
    ensures ParseResult(before + line[k := '\n'] + after).Failed?
  {
    var a, after' := line[..k], ['\n'] + line[k + 1..] + after;
    assert before + line[k := '\n'] + after == before + a + after';
    BadLineRejected(before, a, after');
  }

  lemma SplitBefore(before: string, line: string, after: string)
    requires IsLineOf(before, line, after) && |line| > 1 && ReadLine(line[1..]) == Bad
    ensures ParseResult(before + line[0 := '\n'] + after).Failed?
  {
    var before', b := before + ['\n'], line[1..];
    assert before + line[0 := '\n'] + after == before' + b + after;
    BadLineRejected(before', b, after);
  }
}
