/** std::getline() over a text held in memory: the pieces between one delimiter and the next. A delimiter
    at the very end is followed by no further piece. */
module Getline {

  function Fields(text: string, delim: char): (fields: seq<string>)
    decreases |text|
  {
    if text == [] then []
    else
      var n := FieldEnd(text, delim);
      [text[..n]] + (if n == |text| then [] else Fields(text[n + 1..], delim))
  }

  /** All the pieces, also an empty one behind a delimiter at the end. */
  function Split(text: string, delim: char): (pieces: seq<string>)
    ensures pieces != []
    decreases |text|
  {
    var n := FieldEnd(text, delim);
    if n == |text| then [text] else [text[..n]] + Split(text[n + 1..], delim)
  }

  /** Where the first piece ends. */
  function FieldEnd(text: string, delim: char): (n: nat)
    ensures n <= |text| && (n < |text| ==> text[n] == delim)
    ensures forall k | 0 <= k < n :: text[k] != delim
    decreases |text|
  {
    if text == [] || text[0] == delim then 0
    else
      var n := FieldEnd(text[1..], delim);
      assert forall k | 1 <= k < n + 1 :: text[k] == text[1..][k - 1];
      n + 1
  }

  /** One getline() of a stream at pos. */
  method GetLine(text: string, pos: nat, delim: char) returns (ok: bool, field: string, next: nat)
    requires pos <= |text|
    ensures ok <==> pos < |text|
    ensures ok ==> IsFieldAt(text, delim, pos, field, next)
  {
    field, next := "", pos;
    ok := pos < |text|;
    while next < |text| && text[next] != delim
      invariant pos <= next <= |text| && field == text[pos..next]
      invariant forall k | 0 <= k < |field| :: field[k] != delim
    {
      field := field + [text[next]];
      next := next + 1;
    }
    if next < |text| {
      next := next + 1;
    }
  }

  /** The characters from pos up to the next delimiter, or to the end. */
  ghost predicate IsFieldAt(text: string, delim: char, pos: nat, field: string, next: nat) {
    var stop := pos + |field|;
    && pos < |text| && stop <= |text| && field == text[pos..stop]
    && (forall k | 0 <= k < |field| :: field[k] != delim)
    && (if stop == |text| then next == |text| else text[stop] == delim && next == stop + 1)
  }

  lemma NextField(text: string, delim: char, pos: nat, field: string, next: nat)
    requires IsFieldAt(text, delim, pos, field, next)
    ensures pos < next <= |text| && Fields(text[pos..], delim) == [field] + Fields(text[next..], delim)
  {
    var rest, tail := text[pos..], text[next..];
    assert |rest| == |text| - pos;
    assert field == rest[..|field|];
    if |field| < |rest| {
      assert rest[|field|] == delim;
      DropTwice(text, pos, |field| + 1);
    }
    FirstField(rest, field, tail, delim);
  }

  lemma DropTwice(s: string, a: nat, b: nat)
    requires a + b <= |s|
    ensures s[a..][b..] == s[a + b..]
  {
  }

  lemma FirstField(text: string, field: string, tail: string, delim: char)
    requires text != [] && |field| <= |text| && field == text[..|field|]
    requires if |field| == |text| then tail == [] else text[|field|] == delim && tail == text[|field| + 1..]
    requires forall k | 0 <= k < |field| :: field[k] != delim
    ensures Fields(text, delim) == [field] + Fields(tail, delim)
  {
    assert forall k | 0 <= k < |field| :: text[k] == field[k];
    FieldEndIs(text, |field|, delim);
  }

  lemma HeadField(field: string, tail: string, delim: char)
    requires delim !in field
    ensures Fields(field + [delim] + tail, delim) == [field] + Fields(tail, delim)
  {
    var text := field + [delim] + tail;
    assert text[|field| + 1..] == tail;
    FirstField(text, field, tail, delim);
  }

  /** What ends in a delimiter does not run into what follows. */
  lemma {:induction false} FieldsJoin(before: string, rest: string, delim: char)
    requires before == [] || before[|before| - 1] == delim
    ensures Fields(before + rest, delim) == Fields(before, delim) + Fields(rest, delim)
    decreases |before|
  {
    if before == [] {
      assert before + rest == rest;
    } else {
      var n := FieldEnd(before, delim);
      var first, behind := before[..n], before[n + 1..];
      SplitAround(before, n);
      Regroup(first + [delim], behind, rest);
      HeadField(first, behind, delim);
      HeadField(first, behind + rest, delim);
      assert behind == [] || behind[|behind| - 1] == before[|before| - 1];
      FieldsJoin(behind, rest, delim);
      Regroup([first], Fields(behind, delim), Fields(rest, delim));
    }
  }

  predicate EndsIn(text: string, delim: char) {
    text == [] || text[|text| - 1] == delim
  }

  function WithoutLast(pieces: seq<string>, less: bool): seq<string>
    requires pieces != []
  {
    if less then pieces[..|pieces| - 1] else pieces
  }

  /** The one piece getline() does not give is the empty one at the end. */
  lemma {:induction false} FieldsOfSplit(text: string, delim: char)
    ensures Fields(text, delim) == WithoutLast(Split(text, delim), EndsIn(text, delim))
    decreases |text|
  {
    var n := FieldEnd(text, delim);
    if n == |text| {
      assert text[..n] == text;
    } else {
      var behind := text[n + 1..];
      FieldsOfSplit(behind, delim);
      OneMorePiece(text[..n], Split(behind, delim), EndsIn(behind, delim));
      EndOfRest(text, n, delim);
    }
  }

  lemma OneMorePiece(piece: string, pieces: seq<string>, less: bool)
    requires pieces != []
    ensures WithoutLast([piece] + pieces, less) == [piece] + WithoutLast(pieces, less)
  {
  }

  lemma EndOfRest(text: string, n: nat, delim: char)
    requires n < |text| && text[n] == delim
    ensures EndsIn(text[n + 1..], delim) == EndsIn(text, delim)
  {
  }

  lemma {:induction false} SplitSnoc(text: string, delim: char)
    ensures Split(text + [delim], delim) == Split(text, delim) + [""]
    decreases |text|
  {
    var n := FieldEnd(text, delim);
    FieldEndIs(text + [delim], n, delim);
    if n < |text| {
      var behind := text[n + 1..];
      assert (text + [delim])[n + 1..] == behind + [delim];
      assert (text + [delim])[..n] == text[..n];
      SplitSnoc(behind, delim);
      Regroup([text[..n]], Split(behind, delim), [""]);
    } else {
      assert (text + [delim])[..n] == text && (text + [delim])[n + 1..] == [];
    }
  }

  lemma FieldEndIs(s: string, n: nat, delim: char)
    requires n <= |s| && (n < |s| ==> s[n] == delim) && forall k | 0 <= k < n :: s[k] != delim
    ensures FieldEnd(s, delim) == n
  {
    var m := FieldEnd(s, delim);
  }

  lemma SplitAround(s: string, n: nat)
    requires n < |s|
    ensures s == s[..n] + [s[n]] + s[n + 1..]
  {
  }

  lemma Regroup<T>(a: seq<T>, b: seq<T>, c: seq<T>)
    ensures a + b + c == a + (b + c)
  {
  }
}
