/** Writing HEX files, and reading them back: every image survives, and no single wrong character in a
    record gets past the loader. */
module FwHexCoding {
  import opened Bytes
  import opened Getline
  import opened FwHex
  import opened FwHexMeaning

  // ---------- writing a record ----------

  function Digit(v: nat, upper: bool): (c: char)
    requires v < 16
    ensures IsHexDigit(c) && HexValue(c) == v
  {
    if v < 10 then '0' + v as char else if upper then 'A' + (v - 10) as char else 'a' + (v - 10) as char
  }

  function Digits(b: seq<Byte>, upper: bool): (s: string)
    ensures |s| == 2 * |b|
    ensures forall k | 0 <= k < |s| :: s[k] == Digit(if k % 2 == 0 then b[k / 2] / 16 else b[k / 2] % 16, upper)
  {
    seq(2 * |b|, (k: nat) requires k < 2 * |b| => Digit(if k % 2 == 0 then b[k / 2] / 16 else b[k / 2] % 16, upper))
  }

  /** A record as a line, with upper or lower case digits and with or without a carriage return. */
  function Render(rec: seq<Byte>, upper: bool, cr: bool): string {
    [':'] + Digits(rec, upper) + (if cr then ['\r'] else [])
  }

  lemma DigitsReadBack(b: seq<Byte>, upper: bool)
    ensures AllHex(Digits(b, upper)) && HexBytes(Digits(b, upper)) == b
  {
    var s := Digits(b, upper);
    forall k | 0 <= k < |b|
      ensures HexByte(s, k) == b[k]
    {
      assert s[2 * k] == Digit(b[k] / 16, upper) && s[2 * k + 1] == Digit(b[k] % 16, upper);
    }
  }

  function Body(rec: seq<Byte>, upper: bool): (t: string)
    ensures |t| == 1 + 2 * |rec| && t[0] == ':' && t[1..] == Digits(rec, upper)
  {
    [':'] + Digits(rec, upper)
  }

  lemma BodyHasNoSpace(rec: seq<Byte>, upper: bool)
    ensures forall k | 0 <= k < |Body(rec, upper)| :: !Trimmable(Body(rec, upper)[k]) && Body(rec, upper)[k] != '\n'
  {
    var t := Body(rec, upper);
    forall k | 0 <= k < |t|
      ensures !Trimmable(t[k]) && t[k] != '\n'
    {
      if k > 0 {
        assert t[k] == Digits(rec, upper)[k - 1];
      }
    }
  }

  lemma TrimRendered(rec: seq<Byte>, upper: bool, cr: bool)
    ensures Trim(Render(rec, upper, cr)) == Body(rec, upper)
    ensures '\n' !in Render(rec, upper, cr)
  {
    var line, t := Render(rec, upper, cr), Body(rec, upper);
    BodyHasNoSpace(rec, upper);
    assert Trim(t) == t;
    if cr {
      assert line == t + ['\r'] && line[..|line| - 1] == t;
    } else {
      assert line == t;
    }
  }

  /** Carriage returns and spaces at the end of a line do not count. */
  lemma {:induction false} TrailingBlanks(line: string, blanks: string)
    requires forall k | 0 <= k < |blanks| :: blanks[k] == '\r' || blanks[k] == ' '
    ensures ReadLine(line + blanks) == ReadLine(line)
    decreases |blanks|
  {
    if blanks == [] {
      assert line + blanks == line;
    } else {
      var n := |blanks| - 1;
      assert (line + blanks)[..|line| + n] == line + blanks[..n] && (line + blanks)[|line| + n] == blanks[n];
      TrailingBlanks(line, blanks[..n]);
    }
  }

  /** Anything else at the end of a record does. */
  lemma TrailingOther(line: string, c: char)
    requires ReadLine(line).Record? && c != '\r' && c != ' '
    ensures ReadLine(line + [c]) == Bad
  {
    var t := line + [c];
    assert Trim(t) == t;
    if Trim(line) != line {
      assert t[1..][|line| - 2] == line[|line| - 1];
    }
  }

  /** A rendered record is read as that record. */
  lemma ReadRendered(rec: seq<Byte>, upper: bool, cr: bool)
    requires IsRecord(rec)
    ensures ReadLine(Render(rec, upper, cr)) == Record(rec)
    ensures '\n' !in Render(rec, upper, cr)
  {
    TrimRendered(rec, upper, cr);
    ReadBody(rec, upper);
  }

  lemma ReadBody(rec: seq<Byte>, upper: bool)
    requires IsRecord(rec)
    ensures ReadTrimmed(Body(rec, upper)) == Record(rec)
  {
    DigitsReadBack(rec, upper);
    ReadDigits(Body(rec, upper), rec);
  }

  lemma ReadDigits(t: string, rec: seq<Byte>)
    requires |t| == 1 + 2 * |rec| && t[0] == ':' && AllHex(t[1..]) && HexBytes(t[1..]) == rec
    requires IsRecord(rec)
    ensures ReadTrimmed(t) == Record(rec)
  {
  }

  // ---------- files ----------

  function FileText(lines: seq<string>): string
    decreases |lines|
  {
    if lines == [] then "" else lines[0] + ['\n'] + FileText(lines[1..])
  }

  lemma {:induction false} LinesOfText(lines: seq<string>)
    requires forall i | 0 <= i < |lines| :: '\n' !in lines[i]
    ensures Fields(FileText(lines), '\n') == lines
    decreases |lines|
  {
    if lines != [] {
      var tail := FileText(lines[1..]);
      var text := lines[0] + ['\n'] + tail;
      assert text[|lines[0]| + 1..] == tail;
      FirstField(text, lines[0], tail, '\n');
      LinesOfText(lines[1..]);
    }
  }

  function RenderAll(recs: seq<seq<Byte>>, upper: bool, cr: bool): (lines: seq<string>)
    ensures |lines| == |recs|
  {
    seq(|recs|, (i: nat) requires i < |recs| => Render(recs[i], upper, cr))
  }

  lemma {:induction false} RecordsRead(lines: seq<string>, recs: seq<seq<Byte>>)
    requires |lines| == |recs| && forall i | 0 <= i < |recs| :: ReadLine(lines[i]) == Record(recs[i])
    ensures NoBadLine(lines) && Records(lines) == recs
    decreases |recs|
  {
    if recs != [] {
      RecordsRead(lines[1..], recs[1..]);
      assert ReadLine(lines[0]) == Record(recs[0]);
    }
  }

  lemma RecordsRendered(recs: seq<seq<Byte>>, upper: bool, cr: bool)
    requires forall i | 0 <= i < |recs| :: IsRecord(recs[i])
    ensures var lines := RenderAll(recs, upper, cr);
            && NoBadLine(lines) && Records(lines) == recs
            && (forall i | 0 <= i < |lines| :: '\n' !in lines[i])
  {
    var lines := RenderAll(recs, upper, cr);
    forall i | 0 <= i < |lines|
      ensures ReadLine(lines[i]) == Record(recs[i]) && '\n' !in lines[i]
    {
      ReadRendered(recs[i], upper, cr);
    }
    RecordsRead(lines, recs);
  }

  /** Every file of records that describes an image, in any order and with any address records, loads as
      that image. */
  lemma EncodingLoads(recs: seq<seq<Byte>>, image: seq<Byte>, upper: bool, cr: bool)
    requires forall i | 0 <= i < |recs| :: IsRecord(recs[i])
    requires Proper(false, recs) && Ended(recs)
    requires Means(image, Writes(0, recs)) && 0 < |image| <= FW_MAX_SIZE
    ensures var r := ParseResult(FileText(RenderAll(recs, upper, cr))); r.Ok? && r.loader.image == image
  {
    var lines := RenderAll(recs, upper, cr);
    RecordsRendered(recs, upper, cr);
    LinesOfText(lines);
    ExtentBounds(Writes(0, recs));
    ParseMeans(FileText(lines));
    MeaningIsUnique(image, ParseResult(FileText(lines)).loader.image, Writes(0, recs));
  }

  lemma {:induction false} ExtentBounds(ws: seq<Write>)
    ensures forall i | 0 <= i < |ws| :: ws[i].End() <= Extent(ws)
  {
    if ws != [] {
      ExtentBounds(ws[..|ws| - 1]);
      forall i | 0 <= i < |ws|
        ensures ws[i].End() <= Extent(ws)
      {
        if i < |ws| - 1 {
          assert ws[i] == ws[..|ws| - 1][i];
        }
      }
    }
  }

  // ---------- an encoding for every image ----------

  function Sealed(body: seq<Byte>): (rec: seq<Byte>)
    ensures Sum(rec) % 256 == 0 && |rec| == |body| + 1 && rec[..|body|] == body
  {
    SumAppend(body, (256 - Sum(body) % 256) % 256);
    body + [(256 - Sum(body) % 256) % 256]
  }

  function DataRecord(at: nat, data: seq<Byte>): (rec: seq<Byte>)
    requires at < 0x1_0000 && |data| < 256
    ensures IsRecord(rec) && KnownType(rec) && rec[3] == 0
    ensures Address(rec) == at && Data(rec) == data
  {
    var body := [|data|, at / 256, at % 256, 0] + data;
    var rec := Sealed(body);
    assert rec[0] == body[0] && rec[1] == body[1] && rec[2] == body[2] && rec[3] == body[3];
    assert rec[4..|rec| - 1] == rec[..|body|][4..] == data;
    rec
  }

  function LinearRecord(upper16: nat): (rec: seq<Byte>)
    requires upper16 < 256
    ensures IsRecord(rec) && KnownType(rec) && rec[3] == 4 && rec[0] == 2 && Word(rec[4], rec[5]) == upper16
  {
    var body: seq<Byte> := [2, 0, 0, 4, 0, upper16];
    var rec := Sealed(body);
    assert rec[0] == body[0] && rec[3] == body[3] && rec[4] == body[4] && rec[5] == body[5];
    rec
  }

  function EndRecord(): (rec: seq<Byte>)
    ensures IsRecord(rec) && KnownType(rec) && rec[3] == 1
  {
    var body: seq<Byte> := [0, 0, 0, 1];
    var rec := Sealed(body);
    assert rec[0] == body[0] && rec[3] == body[3];
    rec
  }

  const CHUNK := 16

  /** Data records of up to 16 bytes, each behind a linear address record. */
  function EncodeFrom(image: seq<Byte>, from: nat): (recs: seq<seq<Byte>>)
    requires from <= |image| <= FW_MAX_SIZE
    ensures forall i | 0 <= i < |recs| :: IsRecord(recs[i])
    ensures Proper(false, recs) && Ended(recs)
    decreases |image| - from
  {
    if from == |image| then [EndRecord()]
    else
      var to := if from + CHUNK < |image| then from + CHUNK else |image|;
      var linear, data := LinearRecord(from / 0x1_0000), DataRecord(from % 0x1_0000, image[from..to]);
      var rest := EncodeFrom(image, to);
      var tail := [data] + rest;
      assert tail[1..] == rest && ([linear] + tail)[1..] == tail;
      assert Proper(false, tail);
      [linear] + tail
  }

  ghost predicate Covered(ws: seq<Write>, a: nat) {
    exists i :: 0 <= i < |ws| && ws[i].Covers(a)
  }

  /** ws writes image from `from` to its end, byte by byte and nothing else. */
  ghost predicate Tiles(ws: seq<Write>, image: seq<Byte>, from: nat) {
    && (forall a: nat :: Covered(ws, a) <==> from <= a < |image|)
    && (forall a | from <= a < |image| :: ByteAt(ws, a) == image[a])
    && Extent(ws) == if from < |image| then |image| else 0
  }

  lemma {:induction false} PutFirst(w: Write, ws: seq<Write>, a: nat)
    ensures ByteAt([w] + ws, a) == if Covered(ws, a) then ByteAt(ws, a)
                                   else if w.Covers(a) then w.data[a - w.at] else 0xff
    ensures Extent([w] + ws) == if Extent(ws) < w.End() then w.End() else Extent(ws)
  {
    var all := [w] + ws;
    if ws == [] {
      assert all == [w] && all[..0] == [];
    } else {
      var n := |ws| - 1;
      assert all[..|all| - 1] == [w] + ws[..n];
      PutFirst(w, ws[..n], a);
      assert Covered(ws, a) <==> ws[n].Covers(a) || Covered(ws[..n], a) by {
        assert forall i | 0 <= i < n :: ws[..n][i] == ws[i];
      }
    }
  }

  lemma TilesOnward(image: seq<Byte>, from: nat, to: nat, ws: seq<Write>)
    requires from < to <= |image| && Tiles(ws, image, to)
    ensures Tiles([Write(from, image[from..to])] + ws, image, from)
  {
    var w := Write(from, image[from..to]);
    var all := [w] + ws;
    forall a: nat
      ensures Covered(all, a) <==> w.Covers(a) || Covered(ws, a)
    {
      assert all[0] == w && forall i | 0 <= i < |ws| :: all[i + 1] == ws[i];
    }
    forall a | from <= a < |image|
      ensures ByteAt(all, a) == image[a]
    {
      PutFirst(w, ws, a);
    }
    PutFirst(w, ws, 0);
  }

  lemma {:induction false} EncodingTiles(image: seq<Byte>, from: nat, base: nat)
    requires from <= |image| <= FW_MAX_SIZE
    ensures Tiles(Writes(base, EncodeFrom(image, from)), image, from)
    decreases |image| - from
  {
    var recs := EncodeFrom(image, from);
    if from == |image| {
      assert Writes(base, recs) == [] by {
        assert recs[1..] == [];
      }
    } else {
      var to := if from + CHUNK < |image| then from + CHUNK else |image|;
      var linear, data := LinearRecord(from / 0x1_0000), DataRecord(from % 0x1_0000, image[from..to]);
      var rest := EncodeFrom(image, to);
      var base' := 0x1_0000 * (from / 0x1_0000);
      EncodingTiles(image, to, base');
      ChunkWrites(base, linear, data, rest);
      assert base' + from % 0x1_0000 == from;
      TilesOnward(image, from, to, Writes(base', rest));
    }
  }

  /** An address record and a data record write the data at that address. */
  lemma ChunkWrites(base: nat, linear: seq<Byte>, data: seq<Byte>, rest: seq<seq<Byte>>)
    requires IsRecord(linear) && linear[3] == 4 && linear[0] == 2
    requires IsRecord(data) && data[3] == 0
    requires forall i | 0 <= i < |rest| :: IsRecord(rest[i])
    ensures var base' := 0x1_0000 * Word(linear[4], linear[5]);
            Writes(base, [linear] + ([data] + rest)) == [Write(base' + Address(data), Data(data))] + Writes(base', rest)
  {
    WritesFirst(base, linear, [data] + rest);
    WritesFirst(NextBase(base, linear), data, rest);
  }

  lemma WritesFirst(base: nat, rec: seq<Byte>, rest: seq<seq<Byte>>)
    requires IsRecord(rec) && forall i | 0 <= i < |rest| :: IsRecord(rest[i])
    ensures Writes(base, [rec] + rest) == NewWrites(base, rec) + Writes(NextBase(base, rec), rest)
  {
    assert ([rec] + rest)[1..] == rest;
  }

  /** Every image up to 256 KiB can be written as a HEX file and is what the loader then reads. */
  lemma RoundTrip(image: seq<Byte>, upper: bool, cr: bool)
    requires 0 < |image| <= 0x4_0000
    ensures var r := ParseResult(FileText(RenderAll(EncodeFrom(image, 0), upper, cr)));
            r.Ok? && r.loader.image == image
  {
    EncodingTiles(image, 0, 0);
    EncodingLoads(EncodeFrom(image, 0), image, upper, cr);
  }
}
