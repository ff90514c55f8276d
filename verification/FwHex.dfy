/** fw_parse_hex() of src/fw_update.cpp: the loader for Intel HEX files (Intel Hexadecimal Object File
    Format Specification, Rev. A). */
module FwHex {
  import opened Bytes
  import opened Getline

  const FW_MAX_SIZE := 256 * 1024
  const EINVAL := 22
  const EFBIG := 27

  predicate Trimmable(c: char) {
    c == '\r' || c == ' '
  }

  function Trim(line: string): (t: string)
    ensures |t| <= |line| && t == line[..|t|]
    ensures t == [] || !Trimmable(t[|t| - 1])
  {
    if line != [] && Trimmable(line[|line| - 1]) then Trim(line[..|line| - 1]) else line
  }

  // ---------- records ----------

  predicate IsHexDigit(c: char) {
    '0' <= c <= '9' || 'a' <= c <= 'f' || 'A' <= c <= 'F'
  }

  function HexValue(c: char): (v: nat)
    requires IsHexDigit(c)
    ensures v < 16
  {
    if c <= '9' then c as int - '0' as int
    else if c <= 'F' then c as int - 'A' as int + 10
    else c as int - 'a' as int + 10
  }

  predicate AllHex(s: string) {
    forall k | 0 <= k < |s| :: IsHexDigit(s[k])
  }

  function HexByte(s: string, k: nat): Byte
    requires 2 * k + 1 < |s| && AllHex(s)
  {
    16 * HexValue(s[2 * k]) + HexValue(s[2 * k + 1])
  }

  /** Two digits a byte. */
  function HexBytes(s: string): (b: seq<Byte>)
    requires |s| % 2 == 0 && AllHex(s)
    ensures |b| == |s| / 2
  {
    seq(|s| / 2, (k: nat) requires k < |s| / 2 => HexByte(s, k))
  }

  function Sum(b: seq<Byte>): nat {
    if b == [] then 0 else Sum(b[..|b| - 1]) + b[|b| - 1]
  }

  /** Length, address (2), type, data, checksum: all adding up to 0. */
  predicate IsRecord(rec: seq<Byte>) {
    |rec| >= 5 && |rec| == rec[0] as nat + 5 && Sum(rec) % 256 == 0
  }

  datatype Line = Blank | Bad | Record(rec: seq<Byte>)

  function ReadLine(line: string): (l: Line)
    ensures l.Record? ==> IsRecord(l.rec)
  {
    ReadTrimmed(Trim(line))
  }

  function ReadTrimmed(t: string): (l: Line)
    ensures l.Record? ==> IsRecord(l.rec)
  {
    if t == [] then Blank
    else if t[0] != ':' || |t| < 11 || (|t| - 1) % 2 != 0 || !AllHex(t[1..]) then Bad
    else if IsRecord(HexBytes(t[1..])) then Record(HexBytes(t[1..]))
    else Bad
  }

  // ---------- loading ----------

  datatype Loader = Loader(base: nat, end: bool, image: seq<Byte>)
  datatype Loaded = Ok(loader: Loader) | Failed(errno: int)

  /** image with data put at address at, the gap before it filled. */
  function Store(image: seq<Byte>, at: nat, data: seq<Byte>): (r: seq<Byte>)
  {
    var grown := if |image| < at + |data| then image + seq(at + |data| - |image|, _ => 0xff) else image;
    grown[..at] + data + grown[at + |data|..]
  }

  function Word(hi: Byte, lo: Byte): nat {
    256 * hi as nat + lo as nat
  }

  function Address(rec: seq<Byte>): nat
    requires IsRecord(rec)
  {
    Word(rec[1], rec[2])
  }

  function Data(rec: seq<Byte>): seq<Byte>
    requires IsRecord(rec)
  {
    rec[4..|rec| - 1]
  }

  function LoadRecord(l: Loader, rec: seq<Byte>): Loaded
    requires IsRecord(rec)
  {
    if rec[3] == 0 then
      var at := l.base + Address(rec);
      if at > FW_MAX_SIZE || rec[0] > FW_MAX_SIZE - at then Failed(EFBIG)
      else Ok(l.(image := Store(l.image, at, Data(rec))))
    else if rec[3] == 1 then Ok(l.(end := true))
    else if rec[3] == 2 then
      if rec[0] != 2 then Failed(EINVAL) else Ok(l.(base := 16 * Word(rec[4], rec[5])))
    else if rec[3] == 4 then
      if rec[0] != 2 then Failed(EINVAL) else Ok(l.(base := 0x1_0000 * Word(rec[4], rec[5])))
    else if rec[3] == 3 || rec[3] == 5 then Ok(l)
    else Failed(EINVAL)
  }

  function LoadLine(l: Loader, line: string): Loaded {
    match ReadLine(line)
    case Blank => Ok(l)
    case Bad => Failed(EINVAL)
    case Record(rec) => if l.end then Failed(EINVAL) else LoadRecord(l, rec)
  }

  function LoadLines(l: Loader, lines: seq<string>): Loaded
    decreases |lines|
  {
    if lines == [] then Ok(l)
    else
      match LoadLine(l, lines[0])
      case Failed(e) => Failed(e)
      case Ok(l') => LoadLines(l', lines[1..])
  }

  const START := Loader(0, false, [])

  function ParseResult(text: string): (r: Loaded) {
    match LoadLines(START, Fields(text, '\n'))
    case Failed(e) => Failed(e)
    case Ok(l) => if !l.end || l.image == [] then Failed(EINVAL) else Ok(l)
  }

  // ---------- the code ----------

  /** The checks the code makes before it looks at the record type. */
  method DecodeLine(trimmed: string) returns (ok: bool, rec: seq<Byte>)
    requires trimmed != []
    ensures ReadTrimmed(trimmed) == if ok then Record(rec) else Bad
  {
    rec := [];
    if trimmed[0] != ':' || |trimmed| < 11 || (|trimmed| - 1) % 2 != 0 {
      return false, rec;
    }
    var sum := 0;
    var i := 1;
    while i < |trimmed|
      invariant i == 1 + 2 * |rec| <= |trimmed|
      invariant forall k | 0 <= k < |rec| :: IsPair(trimmed, k, rec[k])
      invariant sum == Sum(rec) % 256
    {
      if !IsHexDigit(trimmed[i]) || !IsHexDigit(trimmed[i + 1]) {
        NotAllHex(trimmed, i);
        return false, rec;
      }
      var b := 16 * HexValue(trimmed[i]) + HexValue(trimmed[i + 1]);
      SumAppend(rec, b);
      AddModulo(Sum(rec), b);
      assert IsPair(trimmed, |rec|, b);
      rec := rec + [b];
      sum := (sum + b) % 256;
      i := i + 2;
    }
    AreHexBytes(trimmed, rec);
    var len: nat := rec[0];
    if |rec| != len + 5 {
      return false, rec;
    }
    if sum != 0 {
      return false, rec;
    }
    ok := true;
  }

  lemma NotAllHex(t: string, i: nat)
    requires 1 <= i < |t| - 1 && (!IsHexDigit(t[i]) || !IsHexDigit(t[i + 1]))
    ensures !AllHex(t[1..])
  {
    assert t[1..][i - 1] == t[i] && t[1..][i] == t[i + 1];
  }

  /** The k-th two digits behind the colon make b. */
  ghost predicate IsPair(t: string, k: nat, b: Byte) {
    && 2 * k + 2 < |t| && IsHexDigit(t[2 * k + 1]) && IsHexDigit(t[2 * k + 2])
    && b == 16 * HexValue(t[2 * k + 1]) + HexValue(t[2 * k + 2])
  }

  lemma AreHexBytes(t: string, rec: seq<Byte>)
    requires |t| == 1 + 2 * |rec| && forall k | 0 <= k < |rec| :: IsPair(t, k, rec[k])
    ensures AllHex(t[1..]) && HexBytes(t[1..]) == rec
  {
    var s := t[1..];
    forall j | 0 <= j < |s|
      ensures IsHexDigit(s[j])
    {
      assert IsPair(t, j / 2, rec[j / 2]);
      assert j == 2 * (j / 2) || j == 2 * (j / 2) + 1;
    }
    forall k | 0 <= k < |rec|
      ensures HexByte(s, k) == rec[k]
    {
      assert IsPair(t, k, rec[k]);
    }
  }

  lemma SumAppend(rec: seq<Byte>, b: Byte)
    ensures Sum(rec + [b]) == Sum(rec) + b
  {
    assert (rec + [b])[..|rec|] == rec;
  }

  lemma AddModulo(x: nat, b: nat)
    ensures (x % 256 + b) % 256 == (x + b) % 256
  {
  }

  method TrimLine(line: string) returns (t: string)
    ensures t == Trim(line)
  {
    t := line;
    while t != [] && Trimmable(t[|t| - 1])
      invariant Trim(t) == Trim(line)
    {
      t := t[..|t| - 1];
    }
  }

  /** The switch over the record type. */
  method ApplyRecord(rec: seq<Byte>, base: nat, end: bool, image: seq<Byte>)
    returns (r: int, base': nat, end': bool, image': seq<Byte>)
    requires IsRecord(rec)
    ensures match LoadRecord(Loader(base, end, image), rec)
            case Ok(l) => r == 0 && l == Loader(base', end', image')
            case Failed(e) => r == -e && r < 0
  {
    r, base', end', image' := 0, base, end, image;
    var len: nat := rec[0];
    var addr := Word(rec[1], rec[2]);
    var data := rec[4..|rec| - 1];
    if rec[3] == 0 {
      var at := base + addr;
      if at > FW_MAX_SIZE || len > FW_MAX_SIZE - at {
        return -EFBIG, base', end', image';
      }
      var stop := at + len;
      if |image'| < stop {
        image' := image' + seq(stop - |image'|, _ => 0xff);
      }
      image' := image'[..at] + data + image'[stop..];
    } else if rec[3] == 1 {
      end' := true;
    } else if rec[3] == 2 {
      if len != 2 {
        return -EINVAL, base', end', image';
      }
      base' := 16 * Word(data[0], data[1]);
    } else if rec[3] == 4 {
      if len != 2 {
        return -EINVAL, base', end', image';
      }
      base' := 0x1_0000 * Word(data[0], data[1]);
    } else if rec[3] == 3 || rec[3] == 5 {
      // start address
    } else {
      r := -EINVAL;
    }
  }

  /** 0 or a negative errno. */
  method FwParseHex(text: string) returns (r: int, image: seq<Byte>)
    ensures match ParseResult(text)
            case Ok(l) => r == 0 && image == l.image
            case Failed(e) => r == -e
  {
    var base: nat, end, pos := 0, false, 0;
    image := [];
    assert text[0..] == text;
    while pos < |text|
      invariant pos <= |text|
      invariant LoadLines(START, Fields(text, '\n')) == LoadLines(Loader(base, end, image), Fields(text[pos..], '\n'))
    {
      var ok, line, next := GetLine(text, pos, '\n');
      NextField(text, '\n', pos, line, next);
      ghost var before, rest := Loader(base, end, image), Fields(text[next..], '\n');
      assert ([line] + rest)[1..] == rest;
      pos := next;
      var trimmed := TrimLine(line);
      if trimmed == [] {
        continue;
      }
      if end {
        return -EINVAL, image;
      }
      var rec;
      ok, rec := DecodeLine(trimmed);
      if !ok {
        return -EINVAL, image;
      }
      ghost var at := Loader(base, end, image);
      r, base, end, image := ApplyRecord(rec, base, end, image);
      assert LoadLine(before, line) == LoadRecord(at, rec);
      if r < 0 {
        return;
      }
    }
    if !end {
      return -EINVAL, image;
    }
    if image == [] {
      return -EINVAL, image;
    }
    r := 0;
  }
}
