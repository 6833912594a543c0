/** The configuration record and the file length kept in the microcontroller's own flash
    (Project/src/flash.c), and the parameter commands that update them. */
module ChipFlash {
  import opened Bits

  type half = x: int | 0 <= x < 65536

  const PAGE_HALVES: nat := 1024    // a 2 KB page
  const INFO_SIZE: nat := 112       // sizeof(IP_INFO_TYPE)
  const SUMMED: nat := 108          // everything in front of checkSum
  const INFO_HEAD: nat := 0x1234AABB
  const INFO_TAIL: nat := 0xEEFF1234
  const DATA_VALID: nat := 0xAAAA5555

  datatype Page = InfoPage | CntPage
  datatype Status = FlashOk | FlashOpErr

  const TIME_OUT_CNT: nat := 0x50000

  /** How many polls of the status register come before the one that finds BSY clear, and then before the one that finds
      EOP set; beyond the limit stands for never. */
  datatype Flags = Flags(busy: nat, eop: nat)

  predicate InTime(f: Flags)
  {
    f.busy <= TIME_OUT_CNT && f.eop <= TIME_OUT_CNT
  }

  /** What the erase controller did: whether the erase ran, and whether BSY and EOP showed it in time. */
  datatype EraseEnv = EraseEnv(runs: bool, flags: Flags)

  /** One FLASH_ProgramWord: previous operation complete, first half-word complete, flags seen in time. */
  datatype WordEnv = WordEnv(ready: bool, firstDone: bool, flags: Flags)

  datatype WriteEnv = WriteEnv(erase: EraseEnv, words: seq<WordEnv>)

  /** EOP is only raised by an erase that ran. */
  ghost predicate Hardware(e: WriteEnv)
  {
    InTime(e.erase.flags) ==> e.erase.runs
  }

  const CALM := WordEnv(true, true, Flags(0, 0))

  predicate Undisturbed(w: WordEnv)
  {
    w.ready && w.firstDone && InTime(w.flags)
  }

  function WordAt(e: WriteEnv, i: nat): WordEnv
  {
    if i < |e.words| then e.words[i] else CALM
  }

  /** All flags are seen in time, those of the erase and those of n words. */
  predicate Succeeds(e: WriteEnv, n: nat)
  {
    InTime(e.erase.flags) && forall i :: 0 <= i < n ==> InTime(WordAt(e, i).flags)
  }

  /** Nothing goes wrong. */
  ghost predicate Calm(e: WriteEnv)
  {
    e.erase.runs && InTime(e.erase.flags) && forall i :: 0 <= i < |e.words| ==> Undisturbed(e.words[i])
  }

  type PageData = p: seq<half> | |p| == PAGE_HALVES witness seq(PAGE_HALVES, _ => 65535)

  function Blank(): PageData
  {
    seq(PAGE_HALVES, _ => 65535)
  }

  /** Half-word k of a byte image, as the processor stores it. */
  function HalfOf(data: seq<byte>, k: nat): half
    requires 2 * k + 1 < |data|
  {
    data[2 * k] + 256 * (data[2 * k + 1] as int)
  }

  /** Programming a half-word that is not erased fails, except for writing zero. */
  function Programmed(was: half, v: half): half
  {
    if was == 65535 || v == 0 then v else was
  }

  /** n bytes of a page. */
  function PageBytes(p: PageData, n: nat): (b: seq<byte>)
    requires n <= 2 * PAGE_HALVES
    ensures |b| == n
  {
    seq(n, j requires 0 <= j < n => if j % 2 == 0 then p[j / 2] % 256 else p[j / 2] / 256)
  }

  /** Every half-word of the image is either programmed or still erased. */
  ghost predicate Torn(p: PageData, data: seq<byte>)
    requires |data| <= 2 * PAGE_HALVES
  {
    forall k :: 0 <= k < |data| / 2 ==> p[k] == 65535 || p[k] == HalfOf(data, k)
  }

  ghost predicate Stored(p: PageData, data: seq<byte>)
    requires |data| <= 2 * PAGE_HALVES
  {
    forall k :: 0 <= k < |data| / 2 ==> p[k] == HalfOf(data, k)
  }

  type Image = b: seq<byte> | |b| == INFO_SIZE witness seq(INFO_SIZE, _ => 0)

  /** writeIpInfo's in-place preparation: head, tail, then the checksum over all but itself. */
  function Sealed(img: Image): Image
  {
    var framed := Put(Put(img, 0, Le32(INFO_HEAD)), 104, Le32(INFO_TAIL));
    SumBound(framed[..SUMMED]);
    Put(framed, SUMMED, Le32(Sum(framed[..SUMMED])))
  }

  /** readIpInfo: None stands for FLASH_CHK_ERR. */
  function ReadInfo(p: PageData): Option<Image>
  {
    var b := PageBytes(p, INFO_SIZE);
    if Word(b[SUMMED..INFO_SIZE]) != Sum(b[..SUMMED]) then None
    else if Word(b[0..4]) != INFO_HEAD || Word(b[104..108]) != INFO_TAIL then None
    else Some(b)
  }

  /** A page is readable exactly when its checksum word is the byte sum of all before it, and head and tail are those
      of a record; what is read is then what the page holds. */
  lemma ReadableExactly(p: PageData)
    ensures var b := PageBytes(p, INFO_SIZE);
            ReadInfo(p) ==
            if Word(b[108..112]) == Sum(b[..108]) && b[0..4] == [0xBB, 0xAA, 0x34, 0x12] &&
               b[104..108] == [0x34, 0x12, 0xFF, 0xEE]
            then Some(b) else None
  {
    hide Word, Sum, PageBytes;
    var b := PageBytes(p, INFO_SIZE);
    HeadAndTail(b[0..4]);
    HeadAndTail(b[104..108]);
  }

  lemma HeadAndTail(w: seq<byte>)
    requires |w| == 4
    ensures Word(w) == INFO_HEAD <==> w == [0xBB, 0xAA, 0x34, 0x12]
    ensures Word(w) == INFO_TAIL <==> w == [0x34, 0x12, 0xFF, 0xEE]
    ensures Word(w) == DATA_VALID <==> w == [0x55, 0x55, 0xAA, 0xAA]
  {
    Le32OfWord(w);
  }

  lemma SealedShape(img: Image)
    ensures var s := Sealed(img);
            Sum(s[..SUMMED]) <= 27540 && s[SUMMED..INFO_SIZE] == Le32(Sum(s[..SUMMED])) &&
            Word(s[0..4]) == INFO_HEAD && Word(s[104..108]) == INFO_TAIL
  {
    var framed := Put(Put(img, 0, Le32(INFO_HEAD)), 104, Le32(INFO_TAIL));
    var s := Sealed(img);
    assert s[..SUMMED] == framed[..SUMMED];
    assert s[0..4] == Le32(INFO_HEAD);
    assert s[104..108] == Le32(INFO_TAIL);
    SumBound(s[..SUMMED]);
  }

  /** Sealing leaves the fields between head and tail alone. */
  lemma SealedKeeps(img: Image, i: nat, j: nat)
    requires 4 <= i <= j <= 104
    ensures Sealed(img)[i..j] == img[i..j]
  {
  }

  /** Byte j of a torn page is the byte of the record or the erased value. */
  lemma TornBytes(p: PageData, data: Image, j: nat)
    requires Torn(p, data) && j < INFO_SIZE
    ensures PageBytes(p, INFO_SIZE)[j] == 255 || PageBytes(p, INFO_SIZE)[j] == data[j]
    ensures Stored(p, data) ==> PageBytes(p, INFO_SIZE)[j] == data[j]
  {
  }

  lemma BytesAreStored(p: PageData, data: Image)
    requires PageBytes(p, INFO_SIZE) == data
    ensures Stored(p, data)
  {
  }

  /** Whatever subset of the half-words of a sealed record has been programmed, reading gives the complete
      record or a checksum error, and the complete record exactly when every half-word is in place. */
  lemma NeverAMix(p: PageData, img: Image)
    requires Torn(p, Sealed(img))
    ensures ReadInfo(p) == if Stored(p, Sealed(img)) then Some(Sealed(img)) else None
  {
    var s := Sealed(img);
    var b := PageBytes(p, INFO_SIZE);
    SealedShape(img);
    forall j | 0 <= j < INFO_SIZE
      ensures b[j] == 255 || b[j] == s[j]
      ensures Stored(p, s) ==> b[j] == s[j]
    {
      TornBytes(p, s, j);
    }
    if Stored(p, s) {
      assert b == s;
      WordOfLe32(Sum(s[..SUMMED]));
    } else if Word(b[SUMMED..INFO_SIZE]) == Sum(b[..SUMMED]) {
      var c := Sum(s[..SUMMED]);
      SumBound(b[..SUMMED]);
      SumMonotone(s[..SUMMED], b[..SUMMED]);
      ChecksumHalves(p, s, c);
      assert b[SUMMED..INFO_SIZE] == s[SUMMED..INFO_SIZE];
      WordOfLe32(c);
      assert b == b[..SUMMED] + b[SUMMED..INFO_SIZE];
      assert s == s[..SUMMED] + s[SUMMED..INFO_SIZE];
      BytesAreStored(p, s);
      assert false;
    }
  }

  /** Any number of interrupted or completed stores later, what can be read is the first record or one of the
      records handed in, whole. */
  lemma {:induction false} OnlyWholeRecords(ps: seq<PageData>, imgs: seq<Image>)
    requires |ps| == |imgs| + 1
    requires forall i :: 0 <= i < |imgs| ==> ps[i + 1] == ps[i] || Torn(ps[i + 1], Sealed(imgs[i]))
    ensures var r := ReadInfo(ps[|imgs|]);
            r == None || r == ReadInfo(ps[0]) || exists i :: 0 <= i < |imgs| && r == Some(Sealed(imgs[i]))
  {
    if |imgs| > 0 {
      var n := |imgs| - 1;
      OnlyWholeRecords(ps[..n + 1], imgs[..n]);
      if ps[n + 1] != ps[n] {
        NeverAMix(ps[n + 1], imgs[n]);
      } else if i :| 0 <= i < n && ReadInfo(ps[n]) == Some(Sealed(imgs[..n][i])) {
        assert imgs[..n][i] == imgs[i];
      }
    }
  }

  /** An unprogrammed half of the checksum word makes it larger than any byte sum. */
  lemma ChecksumHalves(p: PageData, s: Image, c: nat)
    requires Torn(p, s) && c <= 27540 && s[SUMMED..INFO_SIZE] == Le32(c)
    requires Word(PageBytes(p, INFO_SIZE)[SUMMED..INFO_SIZE]) <= 27540
    ensures PageBytes(p, INFO_SIZE)[SUMMED..INFO_SIZE] == s[SUMMED..INFO_SIZE]
  {
    var b := PageBytes(p, INFO_SIZE);
    assert p[54] == 65535 || p[54] == HalfOf(s, 54);
    assert p[55] == 65535 || p[55] == HalfOf(s, 55);
    var w := b[SUMMED..INFO_SIZE];
    assert w[0] == p[54] % 256 && w[1] == p[54] / 256 && w[2] == p[55] % 256 && w[3] == p[55] / 256;
    var t := s[SUMMED..INFO_SIZE];
    assert t[0] == s[108] && t[1] == s[109] && t[2] == s[110] && t[3] == s[111];
  }

  function WithIp(img: Image, ip: seq<byte>): Image
    requires |ip| == 4
  {
    Put(Put(img, 4, ip), 20, Le32(DATA_VALID))
  }

  function WithMac(img: Image, mac: seq<byte>): Image
    requires |mac| == 6
  {
    Put(Put(img, 64, mac), 88, Le32(DATA_VALID))
  }

  function WithPort(img: Image, port: seq<byte>): Image
    requires |port| == 2
  {
    Put(Put(img, 92, port), 100, Le32(DATA_VALID))
  }

  /** The network configuration the firmware runs with. */
  datatype NetConf = NetConf(ip: seq<byte>, mac: seq<byte>, port: seq<byte>)

  /** syncIpInfo: fields marked valid are taken over, an unreadable record leaves the built-in values. */
  function Synced(r: Option<Image>, conf: NetConf): NetConf
  {
    match r
    case None => conf
    case Some(img) =>
      NetConf(if Word(img[20..24]) == DATA_VALID then img[4..8] else conf.ip,
              if Word(img[88..92]) == DATA_VALID then img[64..70] else conf.mac,
              if Word(img[100..104]) == DATA_VALID then img[92..94] else conf.port)
  }

  /** The record a complete PARA_SET leaves behind. */
  function AfterIp(img: Image, ip: seq<byte>): Image
    requires |ip| == 4
  {
    Sealed(WithIp(img, ip))
  }

  function AfterMac(img: Image, ip: seq<byte>, mac: seq<byte>): Image
    requires |ip| == 4 && |mac| == 6
  {
    Sealed(WithMac(AfterIp(img, ip), mac))
  }

  function AfterPort(img: Image, ip: seq<byte>, mac: seq<byte>, port: seq<byte>): Image
    requires |ip| == 4 && |mac| == 6 && |port| == 2
  {
    Sealed(WithPort(AfterMac(img, ip, mac), port))
  }

  /** After a reboot the configuration carries exactly the commanded address, MAC and port. */
  lemma RebootShowsParameters(img: Image, ip: seq<byte>, mac: seq<byte>, port: seq<byte>, conf: NetConf)
    requires |ip| == 4 && |mac| == 6 && |port| == 2
    ensures Synced(Some(AfterPort(img, ip, mac, port)), conf) == NetConf(ip, mac, port)
  {
    var a, b, c := AfterIp(img, ip), AfterMac(img, ip, mac), AfterPort(img, ip, mac, port);
    WordOfLe32(DATA_VALID);
    IpKept(img, ip);
    MacKept(a, mac);
    PortKept(b, port);
  }

  const VALID_BYTES: seq<byte> := [0x55, 0x55, 0xAA, 0xAA]

  /** Each field of a readable record counts exactly when its own validity word is set; the others keep the built-in
      value. */
  lemma SyncedFields(img: Image, conf: NetConf)
    ensures Synced(None, conf) == conf
    ensures Synced(Some(img), conf) ==
            NetConf(if img[20..24] == VALID_BYTES then img[4..8] else conf.ip,
                    if img[88..92] == VALID_BYTES then img[64..70] else conf.mac,
                    if img[100..104] == VALID_BYTES then img[92..94] else conf.port)
  {
    hide Word;
    HeadAndTail(img[20..24]);
    HeadAndTail(img[88..92]);
    HeadAndTail(img[100..104]);
  }

  /** A PARA_SET that stops behind its first or second record leaves the fields it did not reach as they were: those of
      the old record if they were valid there, and otherwise the built-in ones. */
  lemma StoppedEarly(img: Image, ip: seq<byte>, mac: seq<byte>, conf: NetConf)
    requires |ip| == 4 && |mac| == 6
    ensures var was := Synced(Some(img), conf);
            Synced(Some(AfterIp(img, ip)), conf) == was.(ip := ip) &&
            Synced(Some(AfterMac(img, ip, mac)), conf) == was.(ip := ip, mac := mac)
  {
    var a := AfterIp(img, ip);
    WordOfLe32(DATA_VALID);
    IpKept(img, ip);
    MacKept(a, mac);
    BehindIp(img, ip, 64, 70);
    BehindIp(img, ip, 88, 92);
    BehindIp(img, ip, 92, 94);
    BehindIp(img, ip, 100, 104);
    BehindMac(a, mac, 92, 94);
    BehindMac(a, mac, 100, 104);
  }

  lemma BehindIp(img: Image, ip: seq<byte>, i: nat, j: nat)
    requires |ip| == 4 && 24 <= i <= j <= 104
    ensures Sealed(WithIp(img, ip))[i..j] == img[i..j]
  {
    PutField(img, 4, ip, i, j);
    PutField(Put(img, 4, ip), 20, Le32(DATA_VALID), i, j);
    SealedKeeps(WithIp(img, ip), i, j);
  }

  lemma BehindMac(img: Image, mac: seq<byte>, i: nat, j: nat)
    requires |mac| == 6 && 92 <= i <= j <= 104
    ensures Sealed(WithMac(img, mac))[i..j] == img[i..j]
  {
    PutField(img, 64, mac, i, j);
    PutField(Put(img, 64, mac), 88, Le32(DATA_VALID), i, j);
    SealedKeeps(WithMac(img, mac), i, j);
  }

  /** Each setter touches its own field and validity word, and otherwise only head, tail and checksum. */
  lemma OneFieldOnly(img: Image, ip: seq<byte>, mac: seq<byte>, port: seq<byte>, j: nat)
    requires |ip| == 4 && |mac| == 6 && |port| == 2 && 4 <= j < 104
    ensures j >= 8 && (j < 20 || j >= 24) ==> Sealed(WithIp(img, ip))[j] == img[j]
    ensures (j < 64 || j >= 70) && (j < 88 || j >= 92) ==> Sealed(WithMac(img, mac))[j] == img[j]
    ensures (j < 92 || j >= 94) && (j < 100 || j >= 104) ==> Sealed(WithPort(img, port))[j] == img[j]
  {
    ByteKept(WithIp(img, ip), j);
    ByteKept(WithMac(img, mac), j);
    ByteKept(WithPort(img, port), j);
  }

  lemma ByteKept(img: Image, j: nat)
    requires 4 <= j < 104
    ensures Sealed(img)[j] == img[j]
  {
    SealedKeeps(img, j, j + 1);
    assert Sealed(img)[j..j + 1][0] == img[j..j + 1][0];
  }

  lemma IpKept(img: Image, ip: seq<byte>)
    requires |ip| == 4
    ensures Sealed(WithIp(img, ip))[4..8] == ip && Sealed(WithIp(img, ip))[20..24] == Le32(DATA_VALID)
  {
    var put := Put(img, 4, ip);
    PutField(put, 20, Le32(DATA_VALID), 4, 8);
    PutField(img, 4, ip, 4, 8);
    SealedKeeps(WithIp(img, ip), 4, 8);
    SealedKeeps(WithIp(img, ip), 20, 24);
  }

  lemma MacKept(img: Image, mac: seq<byte>)
    requires |mac| == 6
    ensures var s := Sealed(WithMac(img, mac));
            s[64..70] == mac && s[88..92] == Le32(DATA_VALID) && s[4..8] == img[4..8] && s[20..24] == img[20..24]
  {
    var put, w := Put(img, 64, mac), WithMac(img, mac);
    OutsideKept(img, 64, mac, 88, 4, 8);
    OutsideKept(img, 64, mac, 88, 20, 24);
    PutField(put, 88, Le32(DATA_VALID), 64, 70);
    SealedKeeps(w, 64, 70);
    SealedKeeps(w, 88, 92);
    SealedKeeps(w, 4, 8);
    SealedKeeps(w, 20, 24);
  }

  lemma PortKept(img: Image, port: seq<byte>)
    requires |port| == 2
    ensures var s := Sealed(WithPort(img, port));
            s[92..94] == port && s[100..104] == Le32(DATA_VALID) &&
            s[4..8] == img[4..8] && s[20..24] == img[20..24] && s[64..70] == img[64..70] && s[88..92] == img[88..92]
  {
    var put, w := Put(img, 92, port), WithPort(img, port);
    OutsideKept(img, 92, port, 100, 4, 8);
    OutsideKept(img, 92, port, 100, 20, 24);
    OutsideKept(img, 92, port, 100, 64, 70);
    OutsideKept(img, 92, port, 100, 88, 92);
    PutField(put, 100, Le32(DATA_VALID), 92, 94);
    SealedKeeps(w, 92, 94);
    SealedKeeps(w, 100, 104);
    SealedKeeps(w, 4, 8);
    SealedKeeps(w, 20, 24);
    SealedKeeps(w, 64, 70);
    SealedKeeps(w, 88, 92);
  }

  lemma OutsideKept(img: Image, at: nat, d: seq<byte>, flag: nat, i: nat, j: nat)
    requires at + |d| <= INFO_SIZE && flag + 4 <= INFO_SIZE && i <= j <= at && j <= flag
    ensures Put(Put(img, at, d), flag, Le32(DATA_VALID))[i..j] == img[i..j]
  {
    PutField(img, at, d, i, j);
    PutField(Put(img, at, d), flag, Le32(DATA_VALID), i, j);
  }

  /** The file length a page holds: the little-endian number in its first four bytes. */
  function CntValue(p: PageData): nat
  {
    Word(PageBytes(p, 4))
  }

  lemma WordIs(b: seq<byte>)
    requires |b| == 4
    ensures Word(b) == b[0] + 256 * (b[1] as int) + 65536 * (b[2] as int) + 16777216 * (b[3] as int)
  {
  }

  /** It is the one number whose four bytes the page holds. */
  lemma CntIsStored(p: PageData)
    ensures CntValue(p) < TWO_32 && Stored(p, Le32(CntValue(p)))
    ensures CntValue(p) == p[0] + 65536 * (p[1] as int)
  {
    hide Word, Le32;
    var b := PageBytes(p, 4);
    assert b[0] == p[0] % 256 && b[1] == p[0] / 256 && b[2] == p[1] % 256 && b[3] == p[1] / 256;
    Le32OfWord(b);
    assert Word(b) == b[0] + 256 * (b[1] as int) + 65536 * (b[2] as int) + 16777216 * (b[3] as int) by {
      WordIs(b);
    }
  }

  lemma CntRoundTrip(p: PageData, v: nat)
    requires v < TWO_32 && Stored(p, Le32(v))
    ensures CntValue(p) == v
  {
  }

  /** The on-chip flash with its RAM image ipInfoFlash.  Every erase and every half-word uses one unit of
      power; once it is used up nothing reaches the flash any more. */
  class Store {
    var pages: map<Page, PageData>
    var image: Image
    var power: nat

    ghost predicate Valid()
      reads this
    {
      pages.Keys == {InfoPage, CntPage}
    }

    constructor (info: PageData, cnt: PageData, ram: Image, budget: nat)
      ensures Valid() && pages == map[InfoPage := info, CntPage := cnt] && image == ram && power == budget
    {
      pages, image, power := map[InfoPage := info, CntPage := cnt], ram, budget;
    }

    method ProgramHalf(pg: Page, k: nat, v: half)
      requires Valid() && k < PAGE_HALVES
      modifies this`pages, this`power
      ensures Valid() && power <= old(power)
      ensures pages == old(pages)[pg := if old(power) > 0
        then old(pages[pg])[k := Programmed(old(pages[pg])[k], v)] else old(pages[pg])]
      ensures old(power) > 0 ==> power == old(power) - 1
    {
      if power > 0 {
        power := power - 1;
        var p := pages[pg];
        pages := pages[pg := p[k := Programmed(p[k], v)]];
      }
    }

    /** The controller's word write: low half, then high half if the low one completed. */
    method ProgramWord(pg: Page, w: nat, lo: half, hi: half, env: WordEnv)
      requires Valid() && 2 * w + 1 < PAGE_HALVES
      modifies this`pages, this`power
      ensures Valid() && power <= old(power)
      ensures forall q :: q in pages && q != pg ==> pages[q] == old(pages)[q]
      ensures forall k :: 0 <= k < PAGE_HALVES && k / 2 != w ==> pages[pg][k] == old(pages[pg])[k]
      ensures var p, was := pages[pg], old(pages[pg]);
              (p[2 * w] == was[2 * w] || p[2 * w] == Programmed(was[2 * w], lo)) &&
              (p[2 * w + 1] == was[2 * w + 1] || p[2 * w + 1] == Programmed(was[2 * w + 1], hi))
      ensures old(power) == 0 ==> pages == old(pages)
      ensures old(power) >= 2 && env.ready && env.firstDone ==>
        pages[pg][2 * w] == Programmed(old(pages[pg])[2 * w], lo) &&
        pages[pg][2 * w + 1] == Programmed(old(pages[pg])[2 * w + 1], hi) && power == old(power) - 2
    {
      if env.ready {
        ProgramHalf(pg, 2 * w, lo);
        if env.firstDone {
          ProgramHalf(pg, 2 * w + 1, hi);
        }
      }
    }

    /** A polling loop: the flag is found at poll number polls, if the limit is not reached before. */
    static method PollFlag(polls: nat) returns (ok: bool)
      ensures ok <==> polls <= 0x50000
    {
      var timeout := 0;
      while true
        invariant 0 <= timeout <= polls && timeout <= TIME_OUT_CNT + 1
        decreases TIME_OUT_CNT + 1 - timeout
      {
        var sta := timeout >= polls;
        if timeout > TIME_OUT_CNT {
          return false;
        }
        timeout := timeout + 1;
        if sta {
          return true;
        }
      }
    }

    /** First BSY, then EOP. */
    static method WaitFlags(f: Flags) returns (ok: bool)
      ensures ok <==> InTime(f)
    {
      ok := PollFlag(f.busy);
      if ok {
        ok := PollFlag(f.eop);
      }
    }

    method FmcEraseBlk1Pages(pg: Page, env: EraseEnv) returns (r: Status)
      requires Valid()
      modifies this`pages, this`power
      ensures Valid() && power <= old(power)
      ensures pages == old(pages)[pg := if env.runs && old(power) > 0 then Blank() else old(pages[pg])]
      ensures r == if InTime(env.flags) then FlashOk else FlashOpErr
      ensures old(power) > 0 && env.runs ==> power == old(power) - 1
    {
      if env.runs && power > 0 {
        power := power - 1;
        pages := pages[pg := Blank()];
      }
      var ok := WaitFlags(env.flags);
      return if ok then FlashOk else FlashOpErr;
    }

    /** One word of the image into the page; ok if its flags show up in time. */
    method ProgramWordOf(pg: Page, data: seq<byte>, i: nat, e: WordEnv) returns (ok: bool)
      requires Valid() && 4 * i + 3 < |data| <= 2 * PAGE_HALVES
      modifies this`pages, this`power
      ensures Valid() && power <= old(power) && (ok <==> InTime(e.flags))
      ensures forall q :: q in pages && q != pg ==> pages[q] == old(pages)[q]
      ensures old(power) == 0 ==> pages == old(pages)
      ensures forall k :: 0 <= k < PAGE_HALVES && k / 2 != i ==> pages[pg][k] == old(pages[pg])[k]
      ensures forall k :: 2 * i <= k < 2 * i + 2 && old(pages[pg])[k] == 65535 ==>
        pages[pg][k] == 65535 || pages[pg][k] == HalfOf(data, k)
      ensures Undisturbed(e) && old(power) >= 2 ==> ok && power == old(power) - 2
      ensures Undisturbed(e) && old(power) >= 2 ==>
        forall k :: 2 * i <= k < 2 * i + 2 && old(pages[pg])[k] == 65535 ==> pages[pg][k] == HalfOf(data, k)
    {
      ProgramWord(pg, i, HalfOf(data, 2 * i), HalfOf(data, 2 * i + 1), e);
      ok := WaitFlags(e.flags);
    }

    /** Word by word; a word whose flags do not show up in time ends the call. */
    method FmcProgramBlk1Pages(pg: Page, data: seq<byte>, env: WriteEnv) returns (r: Status)
      requires Valid() && |data| % 4 == 0 && |data| <= 2 * PAGE_HALVES
      modifies this`pages, this`power
      ensures Valid() && power <= old(power)
      ensures forall q :: q in pages && q != pg ==> pages[q] == old(pages)[q]
      ensures old(power) == 0 ==> pages == old(pages)
      ensures r == FlashOk <==> forall j :: 0 <= j < |data| / 4 ==> InTime(WordAt(env, j).flags)
      ensures forall j, k :: 0 <= j < |data| / 4 && !InTime(WordAt(env, j).flags) && 2 * j + 2 <= k < PAGE_HALVES ==>
        pages[pg][k] == old(pages[pg])[k]
      ensures old(pages[pg]) == Blank() ==> Torn(pages[pg], data)
      ensures old(pages[pg]) == Blank() && Calm(env) && old(power) >= |data| / 2 ==>
        r == FlashOk && Stored(pages[pg], data) && power == old(power) - |data| / 2
    {
      hide HalfOf, Programmed;
      var i := 0;
      while i < |data| / 4
        invariant 0 <= i <= |data| / 4 && Valid() && power <= old(power)
        invariant forall q :: q in pages && q != pg ==> pages[q] == old(pages)[q]
        invariant old(power) == 0 ==> pages == old(pages)
        invariant forall j :: 0 <= j < i ==> InTime(WordAt(env, j).flags)
        invariant forall k :: 2 * i <= k < PAGE_HALVES ==> pages[pg][k] == old(pages[pg])[k]
        invariant old(pages[pg]) == Blank() ==>
          (forall k :: 0 <= k < 2 * i ==> pages[pg][k] == 65535 || pages[pg][k] == HalfOf(data, k)) &&
          (forall k :: 2 * i <= k < PAGE_HALVES ==> pages[pg][k] == 65535)
        invariant old(pages[pg]) == Blank() && Calm(env) && old(power) >= |data| / 2 ==>
          power == old(power) - 2 * i && (forall k :: 0 <= k < 2 * i ==> pages[pg][k] == HalfOf(data, k))
      {
        var ok := ProgramWordOf(pg, data, i, WordAt(env, i));
        if !ok {
          return FlashOpErr;
        }
        i := i + 1;
      }
      return FlashOk;
    }

    /** Seals the RAM image and stores it.  The page ends up untouched (the erase never ran) or torn towards
        the new record; a reported success means the old record is gone. */
    method WriteIpInfo(env: WriteEnv) returns (r: Status)
      requires Valid() && Hardware(env)
      modifies this
      ensures Valid() && power <= old(power) && image == Sealed(old(image))
      ensures pages[CntPage] == old(pages[CntPage])
      ensures pages[InfoPage] == old(pages[InfoPage]) || Torn(pages[InfoPage], image)
      ensures r == FlashOk <==> Succeeds(env, 28)
      ensures !InTime(env.erase.flags) ==> pages[InfoPage] == old(pages[InfoPage]) || pages[InfoPage] == Blank()
      ensures r == FlashOk && power > 0 ==> Torn(pages[InfoPage], image)
      ensures Calm(env) && old(power) >= 57 ==>
        r == FlashOk && Stored(pages[InfoPage], image) && power == old(power) - 57
    {
      image := Sealed(image);
      r := FmcEraseBlk1Pages(InfoPage, env.erase);
      if r != FlashOk {
        return FlashOpErr;
      }
      r := FmcProgramBlk1Pages(InfoPage, image, env);
      if r != FlashOk {
        return FlashOpErr;
      }
      return FlashOk;
    }

    /** The three parameter setters each update one field of the RAM image and store the record. */
    method IpaddrSet(ip: seq<byte>, env: WriteEnv) returns (ok: bool)
      requires Valid() && Hardware(env) && |ip| == 4
      modifies this
      ensures Valid() && power <= old(power) && image == AfterIp(old(image), ip)
      ensures pages[InfoPage] == old(pages[InfoPage]) || Torn(pages[InfoPage], image)
      ensures ok <==> Succeeds(env, 28)
      ensures ok && power > 0 ==> Torn(pages[InfoPage], image)
      ensures Calm(env) && old(power) >= 57 ==> ok && Stored(pages[InfoPage], image) && power == old(power) - 57
    {
      image := WithIp(image, ip);
      var sta := WriteIpInfo(env);
      return sta == FlashOk;
    }

    method MacaddrSet(mac: seq<byte>, env: WriteEnv) returns (ok: bool)
      requires Valid() && Hardware(env) && |mac| == 6
      modifies this
      ensures Valid() && power <= old(power) && image == Sealed(WithMac(old(image), mac))
      ensures pages[InfoPage] == old(pages[InfoPage]) || Torn(pages[InfoPage], image)
      ensures ok <==> Succeeds(env, 28)
      ensures ok && power > 0 ==> Torn(pages[InfoPage], image)
      ensures Calm(env) && old(power) >= 57 ==> ok && Stored(pages[InfoPage], image) && power == old(power) - 57
    {
      image := WithMac(image, mac);
      var sta := WriteIpInfo(env);
      return sta == FlashOk;
    }

    method PortSet(port: seq<byte>, env: WriteEnv) returns (ok: bool)
      requires Valid() && Hardware(env) && |port| == 2
      modifies this
      ensures Valid() && power <= old(power) && image == Sealed(WithPort(old(image), port))
      ensures pages[InfoPage] == old(pages[InfoPage]) || Torn(pages[InfoPage], image)
      ensures ok <==> Succeeds(env, 28)
      ensures ok && power > 0 ==> Torn(pages[InfoPage], image)
      ensures Calm(env) && old(power) >= 57 ==> ok && Stored(pages[InfoPage], image) && power == old(power) - 57
    {
      image := WithPort(image, port);
      var sta := WriteIpInfo(env);
      return sta == FlashOk;
    }

    /** The PARA_SET command.  At whatever flash operation the power goes, and whatever the controller reports,
        a later read sees the record from before, a checksum error, or one of the three complete records the
        command passes through; a reported success with power left excludes all but the last record and the error.
        What the next start-up makes of it is the commanded configuration, or after an error the built-in one. */
    method ParaSet(ip: seq<byte>, mac: seq<byte>, port: seq<byte>, e1: WriteEnv, e2: WriteEnv, e3: WriteEnv)
      returns (ok: bool)
      requires Valid() && |ip| == 4 && |mac| == 6 && |port| == 2
      requires Hardware(e1) && Hardware(e2) && Hardware(e3)
      modifies this
      ensures Valid()
      ensures ReadInfo(pages[InfoPage]) in {
        ReadInfo(old(pages[InfoPage])), None, Some(AfterIp(old(image), ip)), Some(AfterMac(old(image), ip, mac)),
        Some(AfterPort(old(image), ip, mac, port)) }
      ensures ok <==> Succeeds(e1, 28) && Succeeds(e2, 28) && Succeeds(e3, 28)
      ensures image == if !Succeeds(e1, 28) then AfterIp(old(image), ip)
                       else if !Succeeds(e2, 28) then AfterMac(old(image), ip, mac)
                       else AfterPort(old(image), ip, mac, port)
      ensures ok && power > 0 ==> ReadInfo(pages[InfoPage]) in { None, Some(image) }
      ensures Calm(e1) && Calm(e2) && Calm(e3) && old(power) >= 171 ==>
        ok && ReadInfo(pages[InfoPage]) == Some(AfterPort(old(image), ip, mac, port))
      ensures ok && power > 0 ==>
        forall conf :: Synced(ReadInfo(pages[InfoPage]), conf) in { conf, NetConf(ip, mac, port) }
      ensures Calm(e1) && Calm(e2) && Calm(e3) && old(power) >= 171 ==>
        forall conf :: Synced(ReadInfo(pages[InfoPage]), conf) == NetConf(ip, mac, port)
    {
      ghost var first := image;
      ok := IpaddrSet(ip, e1);
      TornOutcome(pages[InfoPage], WithIp(first, ip));
      if ok {
        ghost var second := image;
        ok := MacaddrSet(mac, e2);
        TornOutcome(pages[InfoPage], WithMac(second, mac));
      }
      if ok {
        ghost var third := image;
        ok := PortSet(port, e3);
        TornOutcome(pages[InfoPage], WithPort(third, port));
        RebootAfter(first, ip, mac, port);
      }
    }

    static lemma RebootAfter(img: Image, ip: seq<byte>, mac: seq<byte>, port: seq<byte>)
      requires |ip| == 4 && |mac| == 6 && |port| == 2
      ensures forall conf :: Synced(Some(AfterPort(img, ip, mac, port)), conf) == NetConf(ip, mac, port)
    {
      forall conf
        ensures Synced(Some(AfterPort(img, ip, mac, port)), conf) == NetConf(ip, mac, port)
      {
        RebootShowsParameters(img, ip, mac, port, conf);
      }
    }

    static lemma TornOutcome(p: PageData, img: Image)
      ensures Torn(p, Sealed(img)) ==> ReadInfo(p) in { None, Some(Sealed(img)) }
      ensures Stored(p, Sealed(img)) ==> ReadInfo(p) == Some(Sealed(img))
    {
      if Torn(p, Sealed(img)) {
        NeverAMix(p, img);
      }
    }

    /** Byte-by-byte checksum. */
    static method CheckSumFun(buf: seq<byte>, size: nat) returns (sum: nat)
      requires size <= |buf|
      ensures sum == Sum(buf[..size])
    {
      sum := 0;
      for i := 0 to size
        invariant sum == Sum(buf[..i])
      {
        assert buf[..i + 1][..i] == buf[..i];
        sum := sum + buf[i];
      }
    }

    method ReadIpInfo() returns (r: Option<Image>)
      requires Valid()
      ensures r == ReadInfo(pages[InfoPage])
    {
      var info := PageBytes(pages[InfoPage], INFO_SIZE);
      var sum := CheckSumFun(info, SUMMED);
      if Word(info[SUMMED..INFO_SIZE]) != sum {
        return None;
      }
      if Word(info[0..4]) != INFO_HEAD || Word(info[104..108]) != INFO_TAIL {
        return None;
      }
      return Some(info);
    }

    /** Start-up: an unreadable record loads the default image and keeps the built-in configuration. */
    method SyncIpInfo(conf: NetConf, defaults: Image) returns (r: NetConf)
      requires Valid()
      modifies this`image
      ensures r == Synced(ReadInfo(pages[InfoPage]), conf)
      ensures image == match ReadInfo(pages[InfoPage]) case Some(img) => img case None => defaults
    {
      var info := ReadIpInfo();
      r := conf;
      if info.None? {
        image := defaults;
        return;
      }
      image := info.value;
      if Word(image[20..24]) == DATA_VALID {
        r := r.(ip := image[4..8]);
      }
      if Word(image[88..92]) == DATA_VALID {
        r := r.(mac := image[64..70]);
      }
      if Word(image[100..104]) == DATA_VALID {
        r := r.(port := image[92..94]);
      }
    }

    /** The file length is one unprotected word. */
    method WriteCntInfo(count: nat, env: WriteEnv) returns (r: Status)
      requires Valid() && Hardware(env) && count < TWO_32
      modifies this`pages, this`power
      ensures Valid() && pages[InfoPage] == old(pages[InfoPage])
      ensures pages[CntPage] == old(pages[CntPage]) || Torn(pages[CntPage], Le32(count))
      ensures r == FlashOk <==> Succeeds(env, 1)
      ensures !InTime(env.erase.flags) ==> pages[CntPage] == old(pages[CntPage]) || pages[CntPage] == Blank()
      ensures Calm(env) && old(power) >= 3 ==> r == FlashOk && CntValue(pages[CntPage]) == count
    {
      r := FmcEraseBlk1Pages(CntPage, env.erase);
      if r != FlashOk {
        return FlashOpErr;
      }
      r := FmcProgramBlk1Pages(CntPage, Le32(count), env);
      if Stored(pages[CntPage], Le32(count)) {
        CntRoundTrip(pages[CntPage], count);
      }
    }

    /** The 32-bit read returns the one number whose bytes the page holds: what WriteCntInfo stored last, if it
        succeeded, and 0xFFFFFFFF from a blank page. */
    method ReadCntInfo() returns (count: nat)
      requires Valid()
      ensures count < TWO_32 && Stored(pages[CntPage], Le32(count)) && count == CntValue(pages[CntPage])
      ensures forall v :: 0 <= v < TWO_32 && Stored(pages[CntPage], Le32(v)) ==> count == v
      ensures pages[CntPage] == Blank() ==> count == TWO_32 - 1
    {
      var p := pages[CntPage];
      CntIsStored(p);
      count := p[0] + 65536 * (p[1] as int);
      forall v | 0 <= v < TWO_32 && Stored(p, Le32(v))
        ensures count == v
      {
        CntRoundTrip(p, v);
      }
    }
  }
}
