/** PIO.ALL of src/ds2408.cpp as text: "b0,b1,...,b7". */
module PioText {
  import opened Ctype
  import opened Getline
  import opened Octets
  import opened Wrappers

  // ---------- printing ----------

  function Bit(b: bool): char {
    if b then '1' else '0'
  }

  /** Bits i to 7. */
  function FmtFrom(bits: Octet, i: nat): (s: string)
    requires i < 8
    decreases 8 - i
  {
    if i == 7 then [Bit(bits[i])] else [Bit(bits[i])] + [','] + FmtFrom(bits, i + 1)
  }

  /** What is still to print before bit i. */
  function Rest(bits: Octet, i: nat): string
    requires i <= 8
  {
    if i == 0 then FmtFrom(bits, i) else if i == 8 then [] else [','] + FmtFrom(bits, i)
  }

  method FmtAll(bits: Octet) returns (buf: string)
    ensures buf == FmtFrom(bits, 0)
  {
    buf := [];
    for i := 0 to 8
      invariant FmtFrom(bits, 0) == buf + Rest(bits, i)
    {
      var piece := if i > 0 then [','] + [Bit(bits[i])] else [Bit(bits[i])];
      RestStep(bits, i, piece);
      Regroup(buf, piece, Rest(bits, i + 1));
      buf := buf + piece;
    }
  }

  lemma RestStep(bits: Octet, i: nat, piece: string)
    requires i < 8 && piece == if i > 0 then [','] + [Bit(bits[i])] else [Bit(bits[i])]
    ensures Rest(bits, i) == piece + Rest(bits, i + 1)
  {
  }

  // ---------- reading ----------

  function TrimBack(s: string): (t: string)
    ensures |t| <= |s| && t == s[..|t|] && (t == [] || !IsSpace(t[|t| - 1]))
  {
    if s != [] && IsSpace(s[|s| - 1]) then TrimBack(s[..|s| - 1]) else s
  }

  function TrimFront(s: string): string {
    if s != [] && IsSpace(s[0]) then TrimFront(s[1..]) else s
  }

  /** A written value without what follows a NUL and without white space at its end. */
  function Trimmed(buf: string): string {
    TrimBack(buf[..FieldEnd(buf, '\0')])
  }

  function Item(field: string): string {
    TrimBack(TrimFront(field))
  }

  predicate IsBit(field: string) {
    Item(field) == ['0'] || Item(field) == ['1']
  }

  /** White space around an item does not count. */
  lemma {:induction false} ItemIs(before: string, c: char, behind: string)
    requires !IsSpace(c) && (forall k | 0 <= k < |before| :: IsSpace(before[k])) && forall k | 0 <= k < |behind| :: IsSpace(behind[k])
    ensures Item(before + ([c] + behind)) == [c]
    decreases |before|
  {
    var s := before + ([c] + behind);
    if before == [] {
      assert s == [c] + behind;
      TrimSpaces([c], behind);
    } else {
      assert s[1..] == before[1..] + ([c] + behind);
      ItemIs(before[1..], c, behind);
    }
  }

  /** Eight items, each a 0 or a 1. */
  function ParseFields(fields: seq<string>): (r: Option<Octet>)
    ensures r.Some? ==> |fields| == 8 && forall k | 0 <= k < 8 :: IsBit(fields[k]) && r.value[k] == (Item(fields[k]) == ['1'])
  {
    if |fields| == 8 && forall k | 0 <= k < 8 :: IsBit(fields[k])
    then Some(seq(8, (k: nat) requires k < 8 && |fields| == 8 => Item(fields[k]) == ['1']))
    else None
  }

  function Parse(s: string): Option<Octet> {
    ParseFields(Fields(s, ','))
  }

  method ParseAll(s: string) returns (ok: bool, bits: Octet)
    ensures Parse(s) == if ok then Some(bits) else None
  {
    bits := Zero();
    var i, pos := 0, 0;
    ghost var seen: seq<string> := [];
    assert s[0..] == s;
    while pos < |s|
      invariant pos <= |s| && i == |seen| <= 8
      invariant Fields(s, ',') == seen + Fields(s[pos..], ',')
      invariant AreBits(seen, bits)
    {
      var got, field, next := GetLine(s, pos, ',');
      NextField(s, ',', pos, field, next);
      Regroup(seen, [field], Fields(s[next..], ','));
      pos := next;
      var item := Item(field);
      if i > 7 || (item != ['0'] && item != ['1']) {
        NotParsed(seen, field, Fields(s[next..], ','));
        return false, bits;
      }
      BitsNext(seen, bits, field);
      if item == ['1'] {
        bits := bits[i := true];
      }
      seen := seen + [field];
      i := i + 1;
    }
    assert Fields(s[pos..], ',') == [] && seen + [] == seen;
    BitsDone(seen, bits);
    ok := i == 8;
  }

  /** The bits of the items seen so far. */
  ghost predicate AreBits(seen: seq<string>, bits: Octet) {
    && |seen| <= 8 && (forall k | 0 <= k < |seen| :: IsBit(seen[k]))
    && forall k | 0 <= k < 8 :: bits[k] == (k < |seen| && Item(seen[k]) == ['1'])
  }

  lemma BitsNext(seen: seq<string>, bits: Octet, field: string)
    requires AreBits(seen, bits) && |seen| < 8 && IsBit(field)
    ensures AreBits(seen + [field], if Item(field) == ['1'] then bits[|seen| := true] else bits)
  {
  }

  lemma BitsDone(seen: seq<string>, bits: Octet)
    requires AreBits(seen, bits)
    ensures ParseFields(seen) == if |seen| == 8 then Some(bits) else None
  {
    if |seen| == 8 {
      assert ParseFields(seen).value == bits;
    }
  }

  lemma NotParsed(seen: seq<string>, field: string, rest: seq<string>)
    requires |seen| > 7 || !IsBit(field)
    ensures ParseFields(seen + [field] + rest) == None
  {
    assert (seen + [field] + rest)[|seen|] == field;
  }

  // ---------- round trip ----------

  function Cells(bits: Octet, i: nat): (cells: seq<string>)
    requires i <= 8
    ensures |cells| == 8 - i && forall k | 0 <= k < 8 - i :: cells[k] == [Bit(bits[i + k])]
    decreases 8 - i
  {
    if i == 8 then [] else [[Bit(bits[i])]] + Cells(bits, i + 1)
  }

  lemma {:induction false} FieldsOfFmt(bits: Octet, i: nat)
    requires i < 8
    ensures Fields(FmtFrom(bits, i), ',') == Cells(bits, i)
    decreases 8 - i
  {
    var head := [Bit(bits[i])];
    if i == 7 {
      FirstField(head, head, [], ',');
    } else {
      HeadField(head, FmtFrom(bits, i + 1), ',');
      FieldsOfFmt(bits, i + 1);
    }
  }

  lemma ParseInvertsFmt(bits: Octet)
    ensures Parse(FmtFrom(bits, 0)) == Some(bits)
  {
    FieldsOfFmt(bits, 0);
    BitFields(Fields(FmtFrom(bits, 0), ','), bits);
  }

  lemma BitFields(fields: seq<string>, bits: Octet)
    requires |fields| == 8 && forall k | 0 <= k < 8 :: fields[k] == [Bit(bits[k])]
    ensures ParseFields(fields) == Some(bits)
  {
    forall k | 0 <= k < 8
      ensures Item(fields[k]) == fields[k]
    {
    }
    assert forall k | 0 <= k < 8 :: IsBit(fields[k]);
    assert ParseFields(fields).value == bits;
  }

  /** With white space or a NUL behind it, as a shell or a C program writes it. */
  lemma WrittenBack(bits: Octet, tail: string)
    requires forall k | 0 <= k < FieldEnd(tail, '\0') :: IsSpace(tail[k])
    ensures Parse(Trimmed(FmtFrom(bits, 0) + tail)) == Some(bits)
  {
    FmtIsPlain(bits, 0);
    TrimmedTail(FmtFrom(bits, 0), tail);
    ParseInvertsFmt(bits);
  }

  lemma TrimmedTail(s: string, tail: string)
    requires s != [] && !IsSpace(s[|s| - 1]) && '\0' !in s
    requires forall k | 0 <= k < FieldEnd(tail, '\0') :: IsSpace(tail[k])
    ensures Trimmed(s + tail) == s
  {
    var n := FieldEnd(tail, '\0');
    FieldEndIs(s + tail, |s| + n, '\0');
    assert (s + tail)[..|s| + n] == s + tail[..n];
    TrimSpaces(s, tail[..n]);
  }

  lemma {:induction false} FmtIsPlain(bits: Octet, i: nat)
    requires i < 8
    ensures var s := FmtFrom(bits, i); |s| > 0 && !IsSpace(s[|s| - 1]) && s[|s| - 1] != ',' && '\0' !in s
    decreases 8 - i
  {
    if i < 7 {
      FmtIsPlain(bits, i + 1);
    }
  }

  lemma {:induction false} TrimSpaces(s: string, spaces: string)
    requires s != [] && !IsSpace(s[|s| - 1]) && forall k | 0 <= k < |spaces| :: IsSpace(spaces[k])
    ensures TrimBack(s + spaces) == s
    decreases |spaces|
  {
    if spaces == [] {
      assert s + spaces == s;
    } else {
      var t := s + spaces;
      assert t[..|t| - 1] == s + spaces[..|spaces| - 1];
      TrimSpaces(s, spaces[..|spaces| - 1]);
    }
  }

  // ---------- what else is taken ----------

  /** Exactly eight items, as the comment above parse_all() has it. */
  function Exact(s: string): Option<Octet> {
    ParseFields(Split(s, ','))
  }

  /** Eight items are always taken, and as what they say. What is taken is eight items if and only if it does
      not end in a comma, else it is so without that comma. */
  lemma TakenIfEight(s: string)
    ensures Exact(s).Some? ==> Parse(s) == Exact(s)
    ensures Parse(s).Some? ==> s != [] && (Exact(s).Some? <==> s[|s| - 1] != ',')
    ensures Parse(s).Some? && Exact(s).None? ==> Parse(s) == Exact(s[..|s| - 1])
  {
    FieldsOfSplit(s, ',');
    if s != [] && s[|s| - 1] == ',' {
      var t := s[..|s| - 1];
      assert s == t + [','];
      SplitSnoc(t, ',');
      var all := Split(s, ',');
      assert all[|all| - 1] == "" && all[..|all| - 1] == Split(t, ',');
    }
  }

  /** A short way to see it: what is printed, with a comma behind it. */
  lemma TrailingCommaTaken(bits: Octet)
    ensures var s := FmtFrom(bits, 0) + [','];
            Parse(s) == Some(bits) && Exact(s).None?
  {
    var t := FmtFrom(bits, 0);
    FmtIsPlain(bits, 0);
    ParseInvertsFmt(bits);
    FieldsOfSplit(t, ',');
    SplitSnoc(t, ',');
    FieldsOfSplit(t + [','], ',');
    var all := Split(t + [','], ',');
    assert all[..|all| - 1] == Split(t, ',');
  }
}
