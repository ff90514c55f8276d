/** fw_flash() and page_write() of src/fw_update.cpp: a firmware update over an unreliable link that
    may break off at any moment and must not leave half an image that starts. */
module FwFlash {
  import opened Bytes
  import opened Wrappers

  const BL_OK := 0xAA
  const BL_ERR_ADDR := 0x01
  const BL_ERR_VERIFY := 0x02
  const EIO := 5
  const EINVAL := 22
  const EFBIG := 27
  const EPROTO := 71
  const FW_PAGE_TRIES := 3

  // ---------- bl_info_parse() ----------

  datatype BlInfo = BlInfo(version: Byte, pageSize: nat, appSize: nat, appValid: bool, lastResult: Byte)

  /** a & b */
  function BitAnd(a: nat, b: nat): nat {
    if a == 0 || b == 0 then 0 else 2 * BitAnd(a / 2, b / 2) + (if a % 2 == 1 && b % 2 == 1 then 1 else 0)
  }

  /** A page of 256 bytes is told as 0. */
  function PageSizeOf(b: Byte): nat {
    if b == 0 then 256 else b
  }

  function BlInfoParse(raw: seq<Byte>): (info: Option<BlInfo>)
    requires |raw| >= 11
    ensures info.Some? ==> 1 <= info.value.pageSize <= 256 && info.value.appSize < 0x1_0000
    ensures info.Some? ==> info.value.pageSize % 256 == raw[3] && info.value.appSize / 256 == raw[5] && info.value.appSize % 256 == raw[4]
    ensures info.Some? ==> info.value.version == raw[2] && info.value.lastResult == raw[10] && (info.value.appValid <==> raw[9] > 0)
  {
    if raw[0] != 0x42 || raw[1] != 0x4C then None
    else
      var pageSize := PageSizeOf(raw[3]);
      if BitAnd(pageSize, pageSize - 1) != 0 then None
      else Some(BlInfo(raw[2], pageSize, raw[4] as int + 256 * raw[5] as int, raw[9] != 0, raw[10]))
  }

  ghost predicate PowerOfTwo(n: nat) {
    n == 1 || (n > 1 && n % 2 == 0 && PowerOfTwo(n / 2))
  }

  /** The test n & (n - 1) == 0 finds the powers of two. */
  lemma {:induction false} SingleBitTest(n: nat)
    requires n > 0
    ensures BitAnd(n, n - 1) == 0 <==> PowerOfTwo(n)
  {
    if n > 1 {
      if n % 2 == 0 {
        assert (n - 1) / 2 == n / 2 - 1 && (n - 1) % 2 == 1;
        SingleBitTest(n / 2);
      } else {
        assert (n - 1) / 2 == n / 2;
        AndItself(n / 2);
      }
    }
  }

  lemma {:induction false} AndItself(n: nat)
    ensures BitAnd(n, n) == n
  {
    if n > 0 {
      AndItself(n / 2);
    }
  }

  /** What a bootloader answer is taken for: the signature, and a page size that is a power of two. */
  lemma InfoAccepted(raw: seq<Byte>)
    requires |raw| >= 11
    ensures BlInfoParse(raw).Some? <==>
            raw[0] == 0x42 && raw[1] == 0x4C && PowerOfTwo(PageSizeOf(raw[3]))
  {
    SingleBitTest(PageSizeOf(raw[3]));
  }

  // ---------- the device in its bootloader ----------

  /** How one try to write a page went: not yet read back, the address refused, read back as written, or not. */
  datatype Answer = Unread | Refused | Verified | Failed

  /** The link and the flash behind it. A faultless one does as it is told. Otherwise every outcome the code cannot exclude may happen: calls fail,
      a page is programmed in part or with other data, an answer is lost, a read is garbled. Only
      the page addressed changes, and a read that shows the expected data shows what is there. */
  class FwLink {
    const faultless: bool
    /** What the bootloader has to say. */
    const boot: seq<Byte>
    var flash: seq<Byte>
    /** The start of every page write asked for. */
    var writes: seq<nat>
    /** What the flash held at every moment a break-off may come. */
    ghost var moments: seq<seq<Byte>>
    /** One for each page write. */
    ghost var answers: seq<Answer>
    /** The page and the data of each write. */
    ghost var sent: seq<(nat, seq<Byte>)>

    ghost function Past(): History
      reads this
    {
      History(flash, moments, writes, answers, sent)
    }

    constructor (flash: seq<Byte>, faultless: bool, boot: seq<Byte>)
      ensures this.flash == flash && this.faultless == faultless && this.boot == boot
      ensures writes == [] && moments == [] && answers == [] && sent == []
    {
      this.faultless, this.boot := faultless, boot;
      this.flash, writes, moments, answers, sent := flash, [], [], [], [];
    }

    method Info() returns (r: int, info: BlInfo)
      ensures r <= 0
      ensures r == 0 ==> 1 <= info.pageSize <= 256 && info.appSize < 0x1_0000
      ensures faultless && |boot| == 11 ==> BlInfoParse(boot) == if r == 0 then Some(info) else None
    {
      info := BlInfo(0, 0, 0, false, 0);
      r := *;
      if r < 0 && !faultless {
        return;
      }
      r := 0;
      var raw: seq<Byte> := *;
      if faultless {
        raw := boot;
      }
      if |raw| != 11 {
        return -EIO, info;
      }
      var parsed := BlInfoParse(raw);
      if parsed == None {
        return -EPROTO, info;
      }
      info := parsed.value;
    }

    method WritePage(addr: nat, data: seq<Byte>) returns (r: int)
      modifies this
      ensures writes == old(writes) + [addr]
      ensures SamePast(old(flash), flash, addr, |data|)
      ensures |moments| == |old(moments)| + 2 && old(moments) <= moments
      ensures forall m | |old(moments)| <= m < |moments| :: SamePast(old(flash), moments[m], addr, |data|)
      ensures moments[|moments| - 1] == flash
      ensures answers == old(answers) + [if r == BL_ERR_ADDR then Refused else if r == BL_OK then Unread else Failed]
      ensures sent == old(sent) + [(addr, data)]
      ensures faultless && addr + |data| <= |old(flash)| ==>
                r == BL_OK && flash == old(flash)[..addr] + data + old(flash)[addr + |data|..]
      ensures faultless && addr + |data| > |old(flash)| ==> r == BL_ERR_ADDR
    {
      sent := sent + [(addr, data)];
      writes := writes + [addr];
      ghost var half := Programmed(addr, |data|);
      if !faultless {
        flash := Programmed(addr, |data|);
        r := *;
      } else if addr + |data| <= |flash| {
        flash, r := flash[..addr] + data + flash[addr + |data|..], BL_OK;
      } else {
        r := BL_ERR_ADDR;
      }
      moments := moments + [half, flash];
      answers := answers + [if r == BL_ERR_ADDR then Refused else if r == BL_OK then Unread else Failed];
    }

    /** The flash with that page in any state. */
    method Programmed(addr: nat, len: nat) returns (after: seq<Byte>)
      ensures SamePast(flash, after, addr, len)
    {
      var page: seq<Byte> := *;
      if addr + len <= |flash| && |page| == len {
        return flash[..addr] + page + flash[addr + len..];
      }
      return flash;
    }

    /** expected only serves to say what cannot happen: wrong data that looks right. */
    method ReadPage(addr: nat, len: nat, expected: seq<Byte>) returns (r: int, back: seq<Byte>)
      requires |expected| == len && answers != []
      modifies this`answers
      ensures answers == old(answers)[..|old(answers)| - 1] + [if r == 0 && back == expected then Verified else Failed]
      ensures |back| == len
      ensures r == 0 && back == expected ==> addr + len <= |flash| && flash[addr..addr + len] == expected
      ensures faultless && addr + len <= |flash| ==> r == 0 && back == flash[addr..addr + len]
    {
      r := *;
      back := *;
      var garbled: bool := *;
      if faultless && addr + len <= |flash| {
        r, back := 0, flash[addr..addr + len];
      } else if !garbled && addr + len <= |flash| {
        back := flash[addr..addr + len];
      } else if |back| != len || (r == 0 && back == expected) {
        r, back := -EIO, expected;
      }
      answers := answers[..|answers| - 1] + [if r == 0 && back == expected then Verified else Failed];
    }
  }

  /** b is a except within len bytes from addr. */
  ghost predicate SamePast(a: seq<Byte>, b: seq<Byte>, addr: nat, len: nat) {
    |b| == |a| && forall k | 0 <= k < |a| && !(addr <= k < addr + len) :: b[k] == a[k]
  }

  // ---------- page_write() ----------

  /** The tries of one page: all but the last failed, and the last says how it ended. */
  ghost predicate Ended(answers: seq<Answer>, r: int) {
    && 0 < |answers| <= 3 && (forall k | 0 <= k < |answers| - 1 :: answers[k] == Failed)
    && answers[|answers| - 1] == (if r == 0 then Verified else if r == -EINVAL then Refused else Failed)
    && (r == -EIO ==> |answers| == 3)
  }

  /** Writes one page until it reads back as written, at most three times. */
  method PageWrite(link: FwLink, addr: nat, data: seq<Byte>) returns (r: int)
    modifies link
    ensures r == 0 || r == -EINVAL || r == -EIO
    ensures r == 0 ==> addr + |data| <= |link.flash| && link.flash[addr..addr + |data|] == data
    ensures SamePast(old(link.flash), link.flash, addr, |data|)
    ensures Touched(old(link.moments), link.moments, old(link.flash), addr, |data|)
    ensures old(link.writes) <= link.writes && |link.writes| <= |old(link.writes)| + 3
    ensures forall k | |old(link.writes)| <= k < |link.writes| :: link.writes[k] == addr
    ensures old(link.answers) <= link.answers && Ended(link.answers[|old(link.answers)|..], r)
    ensures old(link.sent) <= link.sent && forall k | |old(link.sent)| <= k < |link.sent| :: link.sent[k] == (addr, data)
    ensures link.faultless ==> (r == 0 <==> addr + |data| <= |old(link.flash)|)
  {
    ghost var was := link.answers;
    var i := 0;
    while i < FW_PAGE_TRIES
      invariant 0 <= i <= FW_PAGE_TRIES
      invariant SamePast(old(link.flash), link.flash, addr, |data|)
      invariant Touched(old(link.moments), link.moments, old(link.flash), addr, |data|)
      invariant old(link.writes) <= link.writes && |link.writes| == |old(link.writes)| + i
      invariant forall k | |old(link.writes)| <= k < |link.writes| :: link.writes[k] == addr
      invariant was <= link.answers && |link.answers| == |was| + i
      invariant forall k | |was| <= k < |link.answers| :: link.answers[k] == Failed
      invariant old(link.sent) <= link.sent && forall k | |old(link.sent)| <= k < |link.sent| :: link.sent[k] == (addr, data)
      invariant link.faultless ==> i == 0
    {
      i := i + 1;
      r := link.WritePage(addr, data);
      if r == BL_ERR_ADDR {
        return -EINVAL;
      }
      if r != BL_OK {
        continue;
      }
      var back;
      r, back := link.ReadPage(addr, |data|, data);
      if r == 0 && back == data {
        return 0;
      }
      if r == 0 {
        r := BL_ERR_VERIFY;
      }
    }
    return -EIO;
  }

  /** Every new moment shows the flash as it was but for that page. */
  ghost predicate Touched(before: seq<seq<Byte>>, after: seq<seq<Byte>>, flash: seq<Byte>, addr: nat, len: nat) {
    before <= after && forall m | |before| <= m < |after| :: SamePast(flash, after[m], addr, len)
  }

  // ---------- fw_flash() ----------

  function Pages(size: nat, ps: nat): nat
    requires ps > 0
  {
    (size + ps - 1) / ps
  }

  function Padded(image: seq<Byte>, ps: nat): (p: seq<Byte>)
    requires ps > 0
  {
    if |image| % ps == 0 then image else image + Erased(ps - |image| % ps)
  }

  function Erased(n: nat): (p: seq<Byte>)
    ensures |p| == n
  {
    seq(n, _ => 0xff)
  }

  lemma PaddedLength(image: seq<Byte>, ps: nat)
    requires ps > 0
    ensures |Padded(image, ps)| == Pages(|image|, ps) * ps
    ensures image <= Padded(image, ps)
    ensures forall k | |image| <= k < |Padded(image, ps)| :: Padded(image, ps)[k] == 0xff
  {
    RoundsUp(|image|, ps);
  }

  lemma RoundsUp(n: nat, ps: nat)
    requires ps > 0
    ensures Pages(n, ps) * ps == if n % ps == 0 then n else n + ps - n % ps
    ensures n <= Pages(n, ps) * ps < n + ps
  {
    var q, r := n / ps, n % ps;
    assert n == q * ps + r;
    if r == 0 {
      Quotient(n + ps - 1, ps, q, ps - 1);
    } else {
      assert (q + 1) * ps == q * ps + ps;
      Quotient(n + ps - 1, ps, q + 1, r - 1);
    }
  }

  lemma Quotient(a: nat, b: nat, q: nat, r: nat)
    requires r < b && a == q * b + r
    ensures a / b == q
  {
    var d := a / b - q;
    assert a == (a / b) * b + a % b;
    assert d * b == (a / b) * b - q * b;
    assert d * b == r - a % b;
    assert d >= 1 ==> d * b >= b;
    assert d <= -1 ==> d * b + b <= 0;
  }

  ghost predicate Same(a: seq<Byte>, b: seq<Byte>, from: nat, to: nat) {
    forall k | from <= k < to && k < |a| && k < |b| :: a[k] == b[k]
  }

  /** The application starts only with its reset vector in page 0. */
  ghost predicate Bootable(flash: seq<Byte>, ps: nat) {
    exists k :: 0 <= k < ps && k < |flash| && flash[k] != 0xff
  }

  /** Safe to break off at: past page 0 the flash is as before or all new, or nothing starts at all; and
      nothing past the image changed. */
  ghost predicate SafeMoment(before: seq<Byte>, image: seq<Byte>, ps: nat, now: seq<Byte>) {
    && |now| == |before|
    && Same(now, before, |image|, |now|)
    && (Same(now, before, ps, |now|) || !Bootable(now, ps) || Same(now, image, ps, |image|))
  }

  ghost predicate SafeMoments(before: seq<Byte>, image: seq<Byte>, ps: nat, from: nat, moments: seq<seq<Byte>>) {
    forall m | from <= m < |moments| :: SafeMoment(before, image, ps, moments[m])
  }

  predicate AllErased(s: seq<Byte>) {
    forall k | 0 <= k < |s| :: s[k] == 0xff
  }

  /** Page 0 erased, pages 1..p-1 written, the rest as before. */
  ghost predicate Flashed(before: seq<Byte>, image: seq<Byte>, ps: nat, stop: nat, now: seq<Byte>) {
    && |now| == |before| && ps <= stop <= |now| && stop <= |image|
    && AllErased(now[..ps])
    && Same(now, image, ps, stop)
    && Same(now, before, stop, |now|)
  }

  /** While page 0 is erased, whatever happens to another page is safe. */
  lemma SafeWhileErased(before: seq<Byte>, image: seq<Byte>, ps: nat, stop: nat, flash: seq<Byte>, now: seq<Byte>)
    requires Flashed(before, image, ps, stop, flash) && stop + ps <= |image|
    requires SamePast(flash, now, stop, ps)
    ensures SafeMoment(before, image, ps, now)
  {
    forall k | 0 <= k < ps && k < |now|
      ensures now[k] == 0xff
    {
      assert flash[..ps][k] == 0xff;
    }
  }

  /** With all other pages written, whatever happens to page 0 is safe. */
  lemma SafeAtLast(before: seq<Byte>, image: seq<Byte>, ps: nat, flash: seq<Byte>, now: seq<Byte>)
    requires Flashed(before, image, ps, |image|, flash)
    requires SamePast(flash, now, 0, ps)
    ensures SafeMoment(before, image, ps, now)
  {
  }

  /** One more page written and verified. */
  lemma PageFlashed(before: seq<Byte>, image: seq<Byte>, ps: nat, stop: nat, flash: seq<Byte>, now: seq<Byte>)
    requires Flashed(before, image, ps, stop, flash) && stop + ps <= |image|
    requires SamePast(flash, now, stop, ps)
    requires stop + ps <= |now| && now[stop..stop + ps] == image[stop..stop + ps]
    ensures Flashed(before, image, ps, stop + ps, now)
  {
    forall k | 0 <= k < ps
      ensures now[k] == 0xff
    {
      assert flash[..ps][k] == 0xff;
    }
    forall k | ps <= k < stop + ps
      ensures now[k] == image[k]
    {
      if k >= stop {
        assert now[stop..stop + ps][k - stop] == image[stop..stop + ps][k - stop];
      }
    }
  }

  /** Where the update is before page p is written: p == pages stands for page 0, p > pages for done. */
  ghost predicate AtPage(before: seq<Byte>, image: seq<Byte>, ps: nat, pages: nat, p: nat, now: seq<Byte>) {
    if p <= pages then Flashed(before, image, ps, p * ps, now)
    else |image| <= |before| && now == image + before[|image|..]
  }

  /** One call of page_write() during the update. */
  lemma PageWritten(before: seq<Byte>, image: seq<Byte>, ps: nat, pages: nat, p: nat, at: nat, r: int,
                    flash: seq<Byte>, moments: seq<seq<Byte>>, flash': seq<Byte>, moments': seq<seq<Byte>>, from: nat)
    requires ps > 0 && 1 <= p <= pages && |image| == pages * ps
    requires AtPage(before, image, ps, pages, p, flash)
    requires at == (if p == pages then 0 else p * ps) && at + ps <= |image|
    requires SamePast(flash, flash', at, ps)
    requires r == 0 ==> at + ps <= |flash'| && flash'[at..at + ps] == image[at..at + ps]
    requires from <= |moments| && SafeMoments(before, image, ps, from, moments) && Touched(moments, moments', flash, at, ps)
    ensures SafeMoments(before, image, ps, from, moments') && SafeMoment(before, image, ps, flash')
    ensures r == 0 ==> AtPage(before, image, ps, pages, p + 1, flash')
  {
    forall now | SamePast(flash, now, at, ps)
      ensures SafeMoment(before, image, ps, now)
    {
      if p < pages {
        SafeWhileErased(before, image, ps, at, flash, now);
      } else {
        SafeAtLast(before, image, ps, flash, now);
      }
    }
    forall m | from <= m < |moments'|
      ensures SafeMoment(before, image, ps, moments'[m])
    {
      assert m < |moments| ==> moments'[m] == moments[m];
    }
    if r == 0 && p < pages {
      PageFlashed(before, image, ps, at, flash, flash');
      assert (p + 1) * ps == p * ps + ps;
    } else if r == 0 {
      AllFlashed(before, image, ps, flash, flash');
    }
  }

  /** What an update that got to the flash guarantees, however it ended. */
  ghost predicate Update(flash: seq<Byte>, moments: seq<seq<Byte>>, writes: seq<nat>, padded: seq<Byte>, ps: nat, r: int,
                         flash': seq<Byte>, moments': seq<seq<Byte>>, writes': seq<nat>)
    requires ps > 0
  {
    && (r == 0 || r == -EINVAL || r == -EIO)
    && moments <= moments'
    && SafeMoments(flash, padded, ps, |moments|, moments')
    && SafeMoment(flash, padded, ps, flash')
    && (r == 0 ==> |padded| <= |flash| && flash' == padded + flash[|padded|..])
    && WritesBounded(writes, writes', padded, ps, |padded| / ps + 1)
  }

  ghost predicate WritesBounded(writes: seq<nat>, writes': seq<nat>, padded: seq<Byte>, ps: nat, pages: nat) {
    && writes <= writes' && |writes'| - |writes| <= 3 * pages
    && forall k | |writes| <= k < |writes'| :: writes'[k] + ps <= |padded|
  }

  /** No try was refused and no three in a row failed. */
  ghost predicate Steady(answers: seq<Answer>, from: nat) {
    forall k | from <= k < |answers| ::
      answers[k] != Refused && !(k >= from + 2 && answers[k] == answers[k - 1] == answers[k - 2] == Failed)
  }

  lemma SteadyOn(a: seq<Answer>, from: nat, b: seq<Answer>, r: int)
    requires from <= |a| && Steady(a, from) && (from < |a| ==> a[|a| - 1] == Verified)
    requires a <= b && Ended(b[|a|..], r) && (r == 0 || r == -EINVAL || r == -EIO)
    ensures Steady(b, from) <==> r == 0
    ensures r == 0 ==> b[|b| - 1] == Verified
  {
    var last := |b| - 1;
    assert forall k | |a| <= k < |b| :: b[k] == b[|a|..][k - |a|];
    assert forall k | |a| <= k < last :: b[k] == Failed;
    assert r == -EIO ==> b[last] == b[last - 1] == b[last - 2] == Failed;
  }

  /** Nothing was sent but an erased page 0 and pages of the image to where they belong. */
  ghost predicate OnlyItsPages(sent: seq<(nat, seq<Byte>)>, from: nat, padded: seq<Byte>, ps: nat) {
    forall k | from <= k < |sent| :: IsItsPage(sent[k].0, sent[k].1, padded, ps)
  }

  predicate IsItsPage(addr: nat, data: seq<Byte>, padded: seq<Byte>, ps: nat) {
    (addr == 0 && data == Erased(ps)) || (addr + ps <= |padded| && data == padded[addr..addr + ps])
  }

  /** progress(0, pages + 1), then one call after each page. */
  predicate Reported(progress: seq<(int, int)>, pages: int) {
    forall k | 0 <= k < |progress| :: progress[k] == (k, pages + 1)
  }

  /** All that happened on a link so far. */
  datatype History = History(flash: seq<Byte>, moments: seq<seq<Byte>>, writes: seq<nat>, answers: seq<Answer>, sent: seq<(nat, seq<Byte>)>)

  /** What holds of an update from start to end; tries: how many pages it asked for. */
  ghost predicate Kept(was: History, now: History, padded: seq<Byte>, ps: nat, tries: nat) {
    && SafeMoment(was.flash, padded, ps, now.flash)
    && was.moments <= now.moments && SafeMoments(was.flash, padded, ps, |was.moments|, now.moments)
    && WritesBounded(was.writes, now.writes, padded, ps, tries)
    && was.sent <= now.sent && OnlyItsPages(now.sent, |was.sent|, padded, ps)
    && |was.answers| < |now.answers|
  }

  /** The tries of the pages so far came to a good end. */
  ghost predicate GoingWell(was: History, now: History) {
    |was.answers| < |now.answers| && Steady(now.answers, |was.answers|) && now.answers[|now.answers| - 1] == Verified
  }

  /** Erases page 0, writes pages 1 to the last, then page 0. */
  method FlashPages(link: FwLink, padded: seq<Byte>, ps: nat, pages: nat) returns (r: int, progress: seq<(int, int)>)
    requires ps > 0 && pages > 0 && |padded| == pages * ps
    requires (pages - 1) * ps < 0x1_0000
    modifies link
    ensures Update(old(link.flash), old(link.moments), old(link.writes), padded, ps, r, link.flash, link.moments, link.writes)
    ensures Reported(progress, pages) && (r == 0 ==> |progress| == pages + 2)
    ensures r == 0 <==> Steady(link.answers, |old(link.answers)|)
    ensures old(link.sent) <= link.sent && OnlyItsPages(link.sent, |old(link.sent)|, padded, ps)
    ensures link.faultless ==> (r == 0 <==> |padded| <= |old(link.flash)|)
  {
    ghost var was := link.Past();
    Quotient(|padded|, ps, pages, 0);
    var total := pages + 1;
    var done := 0;
    progress := [(done, total)];
    r := ErasePage0(link, padded, ps, pages);
    if r < 0 {
      return;
    }
    done := done + 1;
    progress := progress + [(done, total)];
    var p := 1;
    while p <= pages
      invariant 1 <= p <= pages + 1
      invariant AtPage(was.flash, padded, ps, pages, p, link.flash)
      invariant Kept(was, link.Past(), padded, ps, p) && GoingWell(was, link.Past())
      invariant |progress| == p + 1 && done == p && Reported(progress, pages)
    {
      r := FlashPage(link, padded, ps, pages, p, was);
      if r < 0 {
        return;
      }
      done := done + 1;
      progress := progress + [(done, total)];
      p := p + 1;
    }
    r := 0;
  }

  method ErasePage0(link: FwLink, padded: seq<Byte>, ps: nat, pages: nat) returns (r: int)
    requires ps > 0 && pages > 0 && |padded| == pages * ps
    modifies link
    ensures r == 0 || r == -EINVAL || r == -EIO
    ensures r == 0 ==> AtPage(old(link.flash), padded, ps, pages, 1, link.flash)
    ensures Kept(old(link.Past()), link.Past(), padded, ps, 1)
    ensures if r == 0 then GoingWell(old(link.Past()), link.Past()) else !Steady(link.answers, |old(link.answers)|)
    ensures link.faultless && |padded| <= |old(link.flash)| ==> r == 0
  {
    ghost var was := link.Past();
    var erased := Erased(ps);
    r := PageWrite(link, 0, erased);
    PageErased(was.flash, padded, ps, pages, r, was.moments, link.flash, link.moments);
    SteadyOn(was.answers, |was.answers|, link.answers, r);
  }

  /** Page p, or page 0 in the end. */
  method FlashPage(link: FwLink, padded: seq<Byte>, ps: nat, pages: nat, p: nat, ghost was: History) returns (r: int)
    requires ps > 0 && 1 <= p <= pages && |padded| == pages * ps && (pages - 1) * ps < 0x1_0000
    requires AtPage(was.flash, padded, ps, pages, p, link.flash)
    requires Kept(was, link.Past(), padded, ps, p) && GoingWell(was, link.Past())
    modifies link
    ensures r == 0 || r == -EINVAL || r == -EIO
    ensures r == 0 ==> AtPage(was.flash, padded, ps, pages, p + 1, link.flash)
    ensures Kept(was, link.Past(), padded, ps, p + 1)
    ensures if r == 0 then GoingWell(was, link.Past()) else !Steady(link.answers, |was.answers|)
    ensures link.faultless && |padded| <= |was.flash| ==> r == 0
  {
    ghost var before := link.Past();
    var page := if p == pages then 0 else p;
    PageFits(p, pages, ps);
    var at := (page * ps) % 0x1_0000;
    r := PageWrite(link, at, padded[page * ps..page * ps + ps]);
    PageWritten(was.flash, padded, ps, pages, p, at, r, before.flash, before.moments, link.flash, link.moments, |was.moments|);
    SteadyOn(before.answers, |was.answers|, link.answers, r);
    WritesMore(was.writes, before.writes, link.writes, padded, ps, p, at);
    SentMore(was.sent, before.sent, link.sent, padded, ps, at);
  }

  lemma WritesMore(was: seq<nat>, before: seq<nat>, now: seq<nat>, padded: seq<Byte>, ps: nat, pages: nat, at: nat)
    requires WritesBounded(was, before, padded, ps, pages) && at + ps <= |padded|
    requires before <= now && |now| <= |before| + 3
    requires forall k | |before| <= k < |now| :: now[k] == at
    ensures WritesBounded(was, now, padded, ps, pages + 1)
  {
  }

  lemma SentMore(was: seq<(nat, seq<Byte>)>, before: seq<(nat, seq<Byte>)>, now: seq<(nat, seq<Byte>)>,
                 padded: seq<Byte>, ps: nat, at: nat)
    requires was <= before <= now && OnlyItsPages(before, |was|, padded, ps) && at + ps <= |padded|
    requires forall k | |before| <= k < |now| :: now[k] == (at, padded[at..at + ps])
    ensures was <= now && OnlyItsPages(now, |was|, padded, ps)
  {
    forall k | |was| <= k < |now|
      ensures IsItsPage(now[k].0, now[k].1, padded, ps)
    {
      assert k < |before| ==> now[k] == before[k];
    }
  }

  /** No address leaves 16 bits. */
  lemma PageFits(p: nat, pages: nat, ps: nat)
    requires 1 <= p <= pages && ps > 0 && (pages - 1) * ps < 0x1_0000
    ensures var page := if p == pages then 0 else p;
            (page * ps) % 0x1_0000 == page * ps && page * ps + ps <= pages * ps
  {
    var page := if p == pages then 0 else p;
    Monotone(page, pages - 1, ps);
    AtLeastOne(pages, ps);
    Small(page * ps);
  }

  lemma Monotone(a: nat, b: nat, c: nat)
    requires a <= b
    ensures a * c <= b * c
  {
  }

  lemma Small(n: nat)
    requires n < 0x1_0000
    ensures n % 0x1_0000 == n
  {
  }

  /** Page 0 erased first. */
  lemma PageErased(before: seq<Byte>, image: seq<Byte>, ps: nat, pages: nat, r: int,
                   moments: seq<seq<Byte>>, flash': seq<Byte>, moments': seq<seq<Byte>>)
    requires ps > 0 && pages > 0 && |image| == pages * ps
    requires SamePast(before, flash', 0, ps)
    requires r == 0 ==> ps <= |flash'| && flash'[0..ps] == Erased(ps)
    requires Touched(moments, moments', before, 0, ps)
    ensures ps <= |image|
    ensures SafeMoments(before, image, ps, |moments|, moments') && SafeMoment(before, image, ps, flash')
    ensures r == 0 ==> AtPage(before, image, ps, pages, 1, flash')
  {
    AtLeastOne(pages, ps);
    if r == 0 {
      assert flash'[0..ps] == flash'[..ps];
    }
  }

  lemma AllFlashed(before: seq<Byte>, image: seq<Byte>, ps: nat, flash: seq<Byte>, now: seq<Byte>)
    requires Flashed(before, image, ps, |image|, flash) && SamePast(flash, now, 0, ps)
    requires now[..ps] == image[..ps]
    ensures now == image + before[|image|..]
  {
    forall k | 0 <= k < |now|
      ensures now[k] == (image + before[|image|..])[k]
    {
      if k < ps {
        assert now[..ps][k] == image[..ps][k];
      }
    }
  }

  /** 0 or a negative errno; info: what the bootloader said, None without an answer. */
  method FwFlash(link: FwLink, image: seq<Byte>) returns (r: int, progress: seq<(int, int)>, info: Option<BlInfo>)
    modifies link
    ensures info.Some? ==> info.value.pageSize > 0 && info.value.appSize < 0x1_0000
    ensures info == None ==> r < 0
    ensures info.Some? && (image == [] || |image| > info.value.appSize) ==> r == -EFBIG
    ensures info == None || r == -EFBIG ==> link.flash == old(link.flash) && link.writes == old(link.writes)
    ensures info.Some? && 0 < |image| <= info.value.appSize ==>
              var ps := info.value.pageSize;
              var padded := Padded(image, ps);
              && ps <= |padded|
              && (AllErased(padded[..ps]) ==> r == -EINVAL && link.flash == old(link.flash) && link.writes == old(link.writes))
              && (!AllErased(padded[..ps]) ==> Update(old(link.flash), old(link.moments), old(link.writes), padded, ps, r,
                                                     link.flash, link.moments, link.writes))
              && Reported(progress, |padded| / ps) && (r == 0 ==> |progress| == |padded| / ps + 2)
              && (!AllErased(padded[..ps]) ==> (r == 0 <==> Steady(link.answers, |old(link.answers)|)))
              && (!AllErased(padded[..ps]) && link.faultless ==> (r == 0 <==> |padded| <= |old(link.flash)|))
    ensures link.faultless && |link.boot| == 11 ==> info == BlInfoParse(link.boot)
  {
    progress, info := [], None;
    var bl;
    r, bl := link.Info();
    if r < 0 {
      return;
    }
    info := Some(bl);
    if image == [] || |image| > bl.appSize {
      return -EFBIG, progress, info;
    }
    var ps := bl.pageSize;
    var pages := (|image| + ps - 1) / ps;
    var padded := Padded(image, ps);
    PaddedLength(image, ps);
    RoundsUp(|image|, ps);
    AtLeastOne(pages, ps);
    if AllErased(padded[..ps]) {
      return -EINVAL, progress, info;
    }
    r, progress := FlashPages(link, padded, ps, pages);
    Quotient(|padded|, ps, pages, 0);
  }

  lemma AtLeastOne(pages: nat, ps: nat)
    requires pages > 0 || pages * ps > 0
    ensures pages >= 1 && ps <= pages * ps == (pages - 1) * ps + ps
  {
    assert pages >= 1;
    assert (pages - 1) * ps >= 0;
  }

  // ---------- what that means ----------

  /** Wherever the update broke off: if the device finds an application to start, everything past page 0
      is either the old application's or all of the new image's. */
  lemma NoHalfImageStarts(flash: seq<Byte>, moments: seq<seq<Byte>>, writes: seq<nat>, padded: seq<Byte>, ps: nat, r: int,
                          flash': seq<Byte>, moments': seq<seq<Byte>>, writes': seq<nat>, m: nat)
    requires ps > 0 && Update(flash, moments, writes, padded, ps, r, flash', moments', writes')
    requires |moments| <= m < |moments'| && Bootable(moments'[m], ps)
    requires ps <= |padded| <= |flash|
    ensures |moments'[m]| == |flash|
    ensures moments'[m][ps..] == flash[ps..] || moments'[m][ps..] == padded[ps..] + flash[|padded|..]
  {
    var now := moments'[m];
    assert SafeMoment(flash, padded, ps, now);
    if Same(now, flash, ps, |now|) {
      assert now[ps..] == flash[ps..];
    } else {
      assert now[ps..] == padded[ps..] + flash[|padded|..];
    }
  }

  /** An update broken off anywhere may be done again: the outcome is that of an undisturbed one. */
  lemma SecondTryCompletes(flash: seq<Byte>, padded: seq<Byte>, ps: nat, broken: seq<Byte>,
                           moments: seq<seq<Byte>>, writes: seq<nat>,
                           flash': seq<Byte>, moments': seq<seq<Byte>>, writes': seq<nat>)
    requires ps > 0 && SafeMoment(flash, padded, ps, broken)
    requires Update(broken, moments, writes, padded, ps, 0, flash', moments', writes')
    ensures |padded| <= |flash| && flash' == padded + flash[|padded|..]
  {
    assert broken[|padded|..] == flash[|padded|..];
  }

  /** No page goes past the application's flash, whatever the image, if and only if that flash is a whole
      number of pages. */
  lemma PagesStayInside(appSize: nat, ps: nat)
    requires ps > 0
    ensures (forall n: nat | 0 < n <= appSize :: Pages(n, ps) * ps <= appSize) <==> appSize % ps == 0
  {
    forall n: nat | 0 < n <= appSize && appSize % ps == 0
      ensures Pages(n, ps) * ps <= appSize
    {
      RoundsUp(n, ps);
      var p, q := Pages(n, ps), appSize / ps;
      assert appSize == q * ps;
      assert (q + 1) * ps == q * ps + ps;
      if p > q {
        Monotone(q + 1, p, ps);
      } else {
        Monotone(p, q, ps);
      }
    }
    if appSize % ps != 0 {
      RoundsUp(appSize, ps);
      assert Pages(appSize, ps) * ps > appSize;
    }
  }
}
