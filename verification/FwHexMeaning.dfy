/** What a HEX file means: its data records as writes into a memory of 0xff. fw_parse_hex() loads exactly
    the files that mean something, and what they mean. */
module FwHexMeaning {
  import opened Bytes
  import opened Getline
  import opened FwHex

  datatype Write = Write(at: nat, data: seq<Byte>)
  {
    function End(): nat { at + |data| }
    predicate Covers(a: nat) { at <= a < End() }
  }

  /** The last writer wins, gaps are 0xff. */
  function ByteAt(ws: seq<Write>, a: nat): Byte {
    if ws == [] then 0xff
    else
      var w := ws[|ws| - 1];
      if w.Covers(a) then w.data[a - w.at] else ByteAt(ws[..|ws| - 1], a)
  }

  /** The greatest end address. */
  function Extent(ws: seq<Write>): nat {
    if ws == [] then 0
    else
      var n := Extent(ws[..|ws| - 1]);
      if n < ws[|ws| - 1].End() then ws[|ws| - 1].End() else n
  }

  ghost predicate Means(image: seq<Byte>, ws: seq<Write>) {
    |image| == Extent(ws) && forall a | 0 <= a < |image| :: image[a] == ByteAt(ws, a)
  }

  predicate InRange(ws: seq<Write>) {
    forall i | 0 <= i < |ws| :: ws[i].End() <= 0x4_0000
  }

  // ---------- the records of a file ----------

  predicate NoBadLine(lines: seq<string>) {
    forall i | 0 <= i < |lines| :: ReadLine(lines[i]) != Bad
  }

  function Records(lines: seq<string>): (recs: seq<seq<Byte>>)
    ensures forall i | 0 <= i < |recs| :: IsRecord(recs[i])
    decreases |lines|
  {
    if lines == [] then []
    else
      match ReadLine(lines[0])
      case Record(rec) => [rec] + Records(lines[1..])
      case _ => Records(lines[1..])
  }

  /** A data record's write. */
  function NewWrites(base: nat, rec: seq<Byte>): seq<Write>
    requires IsRecord(rec)
  {
    if rec[3] == 0 then [Write(base + Address(rec), Data(rec))] else []
  }

  /** Segment and linear address records move the data after them. */
  function NextBase(base: nat, rec: seq<Byte>): nat
    requires IsRecord(rec)
  {
    if rec[3] == 2 && rec[0] == 2 then 16 * Word(rec[4], rec[5])
    else if rec[3] == 4 && rec[0] == 2 then 0x1_0000 * Word(rec[4], rec[5])
    else base
  }

  function Writes(base: nat, recs: seq<seq<Byte>>): (ws: seq<Write>)
    requires forall i | 0 <= i < |recs| :: IsRecord(recs[i])
    decreases |recs|
  {
    if recs == [] then []
    else
      assert IsRecord(recs[0]);
      NewWrites(base, recs[0]) + Writes(NextBase(base, recs[0]), recs[1..])
  }

  /** A type the loader knows, an address record with two bytes. */
  predicate KnownType(rec: seq<Byte>)
    requires IsRecord(rec)
  {
    rec[3] <= 5 && (rec[3] == 2 || rec[3] == 4 ==> rec[0] == 2)
  }

  /** Known records, none behind an end of file record. */
  predicate Proper(end: bool, recs: seq<seq<Byte>>)
    requires forall i | 0 <= i < |recs| :: IsRecord(recs[i])
    decreases |recs|
  {
    recs == [] || (assert IsRecord(recs[0]); !end && KnownType(recs[0]) && Proper(recs[0][3] == 1, recs[1..]))
  }

  predicate Ended(recs: seq<seq<Byte>>)
    requires forall i | 0 <= i < |recs| :: IsRecord(recs[i])
  {
    recs != [] && (assert IsRecord(recs[|recs| - 1]); recs[|recs| - 1][3] == 1)
  }

  // ---------- one record ----------

  lemma ExtentCovers(ws: seq<Write>, a: nat)
    requires a >= Extent(ws)
    ensures ByteAt(ws, a) == 0xff
  {
  }

  /** resize() and memcpy() do what the write means. */
  lemma StoreMeans(image: seq<Byte>, ws: seq<Write>, w: Write)
    requires Means(image, ws)
    ensures Means(Store(image, w.at, w.data), ws + [w])
  {
    var ws' := ws + [w];
    assert ws'[..|ws'| - 1] == ws;
    var r := Store(image, w.at, w.data);
    forall a | 0 <= a < |r|
      ensures r[a] == ByteAt(ws', a)
    {
      if !w.Covers(a) && a >= |image| {
        ExtentCovers(ws, a);
      }
    }
  }

  lemma RecordMeans(l: Loader, ws: seq<Write>, rec: seq<Byte>)
    requires Means(l.image, ws) && IsRecord(rec)
    ensures var r := LoadRecord(l, rec); var new_ := NewWrites(l.base, rec);
            && (r.Ok? <==> KnownType(rec) && InRange(new_))
            && (r.Ok? ==> r.loader.base == NextBase(l.base, rec) && r.loader.end == (l.end || rec[3] == 1))
            && (r.Ok? ==> Means(r.loader.image, ws + new_))
            && (r.Failed? ==> r.errno == if rec[3] == 0 then 27 else 22)
  {
    if rec[3] == 0 {
      var w := Write(l.base + Address(rec), Data(rec));
      assert NewWrites(l.base, rec)[0] == w;
      StoreMeans(l.image, ws, w);
    } else {
      assert ws + [] == ws;
    }
  }

  // ---------- a whole file ----------

  lemma InRangeAppend(a: seq<Write>, b: seq<Write>)
    ensures InRange(a + b) <==> InRange(a) && InRange(b)
  {
    assert forall i | 0 <= i < |b| :: (a + b)[|a| + i] == b[i];
    assert forall i | 0 <= i < |a| :: (a + b)[i] == a[i];
  }

  /** Loading lines after the writes ws succeeds just when they mean something, and gives that. */
  ghost predicate LoadsAs(l: Loader, ws: seq<Write>, lines: seq<string>) {
    var recs, r := Records(lines), LoadLines(l, lines);
    && (r.Ok? <==> NoBadLine(lines) && Proper(l.end, recs) && InRange(Writes(l.base, recs)))
    && (r.Ok? ==> Means(r.loader.image, ws + Writes(l.base, recs)))
    && (r.Ok? ==> r.loader.end == if recs == [] then l.end else Ended(recs))
  }

  lemma {:induction false} LoadMeans(l: Loader, ws: seq<Write>, lines: seq<string>)
    requires Means(l.image, ws)
    ensures LoadsAs(l, ws, lines)
    decreases |lines|
  {
    if lines == [] {
      assert ws + Writes(l.base, []) == ws;
    } else {
      match ReadLine(lines[0])
      case Blank =>
        LoadMeans(l, ws, lines[1..]);
        assert NoBadLine(lines) <==> NoBadLine(lines[1..]);
      case Bad =>
      case Record(rec) =>
        RecordMeans(l, ws, rec);
        if !l.end && LoadRecord(l, rec).Ok? {
          LoadMeans(LoadRecord(l, rec).loader, ws + NewWrites(l.base, rec), lines[1..]);
          LoadsOnAs(l, ws, lines, rec);
        } else {
          FailsAs(l, ws, lines, rec);
        }
    }
  }

  lemma LoadsOnAs(l: Loader, ws: seq<Write>, lines: seq<string>, rec: seq<Byte>)
    requires lines != [] && ReadLine(lines[0]) == Record(rec) && !l.end
    requires KnownType(rec) && InRange(NewWrites(l.base, rec)) && LoadRecord(l, rec).Ok?
    requires var l' := LoadRecord(l, rec).loader;
             && l'.base == NextBase(l.base, rec) && l'.end == (rec[3] == 1)
             && LoadsAs(l', ws + NewWrites(l.base, rec), lines[1..])
    ensures LoadsAs(l, ws, lines)
  {
    var l', rest := LoadRecord(l, rec).loader, lines[1..];
    FirstRecord(l.base, lines, rec);
    var new_, later := NewWrites(l.base, rec), Writes(l'.base, Records(rest));
    InRangeAppend(new_, later);
    Regroup(ws, new_, later);
  }

  /** What the first line adds to the meaning of the others. */
  lemma FirstRecord(base: nat, lines: seq<string>, rec: seq<Byte>)
    requires lines != [] && ReadLine(lines[0]) == Record(rec)
    ensures var recs, rest := Records(lines), Records(lines[1..]);
            && recs != []
            && Writes(base, recs) == NewWrites(base, rec) + Writes(NextBase(base, rec), rest)
            && (forall end :: Proper(end, recs) <==> !end && KnownType(rec) && Proper(rec[3] == 1, rest))
            && (Ended(recs) <==> if rest == [] then rec[3] == 1 else Ended(rest))
    ensures NoBadLine(lines) <==> NoBadLine(lines[1..])
  {
    assert Records(lines)[1..] == Records(lines[1..]);
  }

  lemma FailsAs(l: Loader, ws: seq<Write>, lines: seq<string>, rec: seq<Byte>)
    requires lines != [] && ReadLine(lines[0]) == Record(rec)
    requires l.end || !KnownType(rec) || !InRange(NewWrites(l.base, rec))
    requires LoadLine(l, lines[0]).Failed?
    ensures LoadsAs(l, ws, lines)
  {
    var recs := Records(lines[1..]);
    assert Records(lines)[1..] == recs;
    InRangeAppend(NewWrites(l.base, rec), Writes(NextBase(l.base, rec), recs));
  }

  ghost predicate MeansSomething(text: string) {
    var recs := Records(Fields(text, '\n'));
    && NoBadLine(Fields(text, '\n'))
    && Proper(false, recs) && Ended(recs)
    && InRange(Writes(0, recs)) && Extent(Writes(0, recs)) > 0
  }

  lemma ExtentIsLength(r: Loaded, ws: seq<Write>)
    ensures r.Ok? && Means(r.loader.image, ws) ==> |r.loader.image| == Extent(ws)
  {
  }

  /** The loader accepts a file just when every line is a record or blank, the last record and no other is
      an end of file record, and the data is some and ends within 256 KiB; the image is what it means. */
  lemma ParseMeans(text: string)
    ensures ParseResult(text).Ok? <==> MeansSomething(text)
    ensures ParseResult(text).Ok? ==> Means(ParseResult(text).loader.image, Writes(0, Records(Fields(text, '\n'))))
  {
    var lines := Fields(text, '\n');
    var ws := Writes(0, Records(lines));
    LoadMeans(START, [], lines);
    assert [] + ws == ws;
    ExtentIsLength(ParseResult(text), ws);
  }

  lemma MeaningIsUnique(a: seq<Byte>, b: seq<Byte>, ws: seq<Write>)
    requires Means(a, ws) && Means(b, ws)
    ensures a == b
  {
  }
}
