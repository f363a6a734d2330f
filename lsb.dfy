/** The least-significant-bit codec of steg_module.js, as pure functions over
 *  the flat buffer of pixel sample bytes: the frame that is hidden, the
 *  embedding of its bits, the decoder, and the laws that connect them. */
module Lsb {
  import opened Wrappers

  /** The failures of hide/unhide (the source reports them as message strings). */
  datatype StegError =
    | TooBig      // the frame does not fit, one bit per pixel byte
    | BadMagic1   // hide: the image already decodes to a hidden message
    | BadMagic2   // unhide: the decoded bytes do not start with the magic
    | BadMsg      // unhide: no NUL byte before the pixel bytes run out

  /** STEG_MAGIC, the character codes of "stg". */
  const Magic: seq<bv8> := [0x73, 0x74, 0x67]

  /** The NUL character that ends a hidden message. */
  const Nul: bv8 := 0

  /** Number of pixel bytes that carry one frame byte. */
  const BitsPerByte: nat := 8

  /** The magic message that hide embeds: magic, message, NUL. */
  function Frame(msg: seq<bv8>): (f: seq<bv8>)
    ensures |f| == |Magic| + |msg| + 1
    ensures f[..|Magic|] == Magic && f[|Magic|..|f| - 1] == msg && f[|f| - 1] == Nul
  {
    Magic + msg + [Nul]
  }

  /** The byte with only bit j set, counting bits from the most significant
   *  (j = 0) down; the source writes it `1 << (7 - j)`. */
  function BitMask(j: nat): (m: bv8)
    requires j < 8
  {
    match j
    case 0 => 0x80
    case 1 => 0x40
    case 2 => 0x20
    case 3 => 0x10
    case 4 => 0x08
    case 5 => 0x04
    case 6 => 0x02
    case _ => 0x01
  }

  /** Bit j of byte b, counting from the most significant (j = 0) down: the
   *  j-th digit of the 8-digit binary string of b. */
  function BitAt(b: bv8, j: nat): (bit: bv8)
    requires j < 8
    ensures bit <= 1
  {
    if b & BitMask(j) == 0 then 0 else 1
  }

  /** Bit i of the frame's MSB-first bit stream. */
  function FrameBit(f: seq<bv8>, i: nat): (bit: bv8)
    requires i < BitsPerByte * |f|
    ensures bit <= 1
  {
    BitAt(f[i / BitsPerByte], i % BitsPerByte)
  }

  /** A pixel byte whose LSB is set (`|= 1`) or cleared (`&= ~1`). */
  function SetLsb(x: bv8, bit: bv8): (y: bv8)
    requires bit <= 1
    ensures y / 2 == x / 2 && y % 2 == bit
  {
    if bit == 1 then x | 1 else x & !1
  }

  /** The pixel bytes after the frame's bits have been written, one per
   *  byte from index 0; a bit whose index is past the buffer is lost. */
  function Embed(p: seq<bv8>, f: seq<bv8>): (q: seq<bv8>)
    ensures |q| == |p|
    ensures forall i :: 0 <= i < |p| && i < BitsPerByte * |f| ==>
              q[i] / 2 == p[i] / 2 && q[i] % 2 == FrameBit(f, i)
    ensures forall i :: BitsPerByte * |f| <= i < |p| ==> q[i] == p[i]
  {
    seq(|p|, i requires 0 <= i < |p| =>
      if i < BitsPerByte * |f| then SetLsb(p[i], FrameBit(f, i)) else p[i])
  }

  /** Bit j of frame byte m is bit 8m + j of the frame's bit stream. */
  lemma FrameBitOfByte(f: seq<bv8>, m: nat, j: nat)
    requires m < |f| && j < 8
    ensures FrameBit(f, BitsPerByte * m + j) == BitAt(f[m], j)
  {
  }

  /** Pixel byte i of the embedded buffer, written out. */
  lemma EmbedAt(p: seq<bv8>, f: seq<bv8>, i: nat)
    requires i < |p|
    ensures Embed(p, f)[i] == if i < BitsPerByte * |f| then SetLsb(p[i], FrameBit(f, i)) else p[i]
  {
  }

  /** The LSBs of up to 8 pixel bytes packed MSB-first, exactly as the
   *  decoder's accumulator holds them after reading those bytes. */
  function PackLsbs(s: seq<bv8>): bv8
    requires |s| <= 8
    decreases |s|
  {
    if s == [] then 0
    else PackLsbs(s[..|s| - 1]) | (if s[|s| - 1] & 1 == 1 then BitMask(|s| - 1) else 0)
  }

  /** The k-th run of 8 pixel bytes. */
  function Group(p: seq<bv8>, k: nat): (g: seq<bv8>)
    requires BitsPerByte * k + BitsPerByte <= |p|
    ensures |g| == 8
  {
    p[BitsPerByte * k .. BitsPerByte * k + BitsPerByte]
  }

  /** Prefixes a decoded run with bytes already decoded. */
  function Prepend(e: seq<bv8>, o: Option<seq<bv8>>): Option<seq<bv8>>
  {
    match o
    case None => None
    case Some(rest) => Some(e + rest)
  }

  /** The bytes decoded before the first all-zero run of 8 LSBs, or None when
   *  the buffer (including a trailing partial run) ends without one. */
  function Scan(p: seq<bv8>): (r: Option<seq<bv8>>)
    ensures r.Some? ==> Nul !in r.value && BitsPerByte * (|r.value| + 1) <= |p|
    decreases |p|
  {
    if |p| < BitsPerByte then None
    else
      var c := PackLsbs(p[..BitsPerByte]);
      if c == Nul then Some([]) else Prepend([c], Scan(p[BitsPerByte..]))
  }

  /** What unhide returns for a buffer of pixel bytes. */
  function Decode(p: seq<bv8>): (r: Result<seq<bv8>, StegError>)
    ensures r.Failure? ==> r.error == BadMsg || r.error == BadMagic2
    ensures r.Success? ==> Nul !in r.value && BitsPerByte * |Frame(r.value)| <= |p|
  {
    match Scan(p)
    case None => Failure(BadMsg)
    case Some(body) =>
      if |body| < |Magic| || body[..|Magic|] != Magic then Failure(BadMagic2)
      else Success(body[|Magic|..])
  }

  /** What hide returns for a buffer of pixel bytes and a message, with the
   *  capacity checked in full before any byte is written. */
  function HideSpec(p: seq<bv8>, msg: seq<bv8>): (r: Result<seq<bv8>, StegError>)
    ensures Decode(p).Success? ==> r == Failure(BadMagic1)
    ensures r == Failure(TooBig) <==>
              Decode(p).Failure? && BitsPerByte * (|Magic| + |msg| + 1) > |p|
    ensures r.Success? <==>
              Decode(p).Failure? && BitsPerByte * (|Magic| + |msg| + 1) <= |p|
    ensures r.Success? ==> |r.value| == |p|
    ensures r.Success? ==> forall i :: 0 <= i < BitsPerByte * |Frame(msg)| ==>
              r.value[i] / 2 == p[i] / 2 && r.value[i] % 2 == FrameBit(Frame(msg), i)
    ensures r.Success? ==> forall i :: BitsPerByte * |Frame(msg)| <= i < |p| ==> r.value[i] == p[i]
  {
    if Decode(p).Success? then Failure(BadMagic1)
    else if BitsPerByte * |Frame(msg)| > |p| then Failure(TooBig)
    else Success(Embed(p, Frame(msg)))
  }

  /** The bytes of s before its first NUL (all of s when it has none). */
  function TakeUntilNul(s: seq<bv8>): (r: seq<bv8>)
    ensures |r| <= |s| && r == s[..|r|]
    ensures Nul !in r
    ensures |r| < |s| ==> s[|r|] == Nul
  {
    if s == [] || s[0] == Nul then [] else [s[0]] + TakeUntilNul(s[1..])
  }

  // ---------------------------------------------------------------------
  // Packing the LSBs of a run of 8 pixel bytes

  /** The mask table agrees with the source's shift `1 << (7 - j)`. */
  lemma BitMaskIsShift(j: nat)
    requires j < 8
    ensures BitMask(j) == 1 << (7 - j)
  {
  }

  /** ORing in the mask of bit n sets bit n and leaves the other bits. */
  lemma BitAtOrMask(x: bv8, n: nat, j: nat)
    requires n < 8 && j < 8
    ensures BitAt(x | BitMask(n), j) == if j == n then 1 else BitAt(x, j)
  {
  }

  /** Bit j of the accumulator is the LSB of the j-th byte read so far, and
   *  0 for bytes not yet read. */
  lemma {:induction false} PackLsbsBit(s: seq<bv8>, j: nat)
    requires |s| <= 8 && j < 8
    ensures BitAt(PackLsbs(s), j) == if j < |s| then s[j] & 1 else 0
    decreases |s|
  {
    if s != [] {
      var n := |s| - 1;
      var x := PackLsbs(s[..n]);
      PackLsbsBit(s[..n], j);
      assert j < n ==> s[..n][j] == s[j];
      if s[n] & 1 == 1 {
        BitAtOrMask(x, n, j);
      } else {
        assert PackLsbs(s) == x;
      }
    }
  }

  /** A byte is determined by its eight bits. */
  lemma BitsDetermineByte(a: bv8, b: bv8)
    requires forall j :: 0 <= j < 8 ==> BitAt(a, j) == BitAt(b, j)
    ensures a == b
  {
    assert BitAt(a, 0) == BitAt(b, 0) && BitAt(a, 1) == BitAt(b, 1);
    assert BitAt(a, 2) == BitAt(b, 2) && BitAt(a, 3) == BitAt(b, 3);
    assert BitAt(a, 4) == BitAt(b, 4) && BitAt(a, 5) == BitAt(b, 5);
    assert BitAt(a, 6) == BitAt(b, 6) && BitAt(a, 7) == BitAt(b, 7);
  }

  /** Packing 8 bytes whose LSBs spell out b, MSB first, gives back b. */
  lemma PackLsbsOfBits(g: seq<bv8>, b: bv8)
    requires |g| == 8
    requires forall j :: 0 <= j < 8 ==> g[j] % 2 == BitAt(b, j)
    ensures PackLsbs(g) == b
  {
    forall j | 0 <= j < 8 ensures BitAt(PackLsbs(g), j) == BitAt(b, j) {
      PackLsbsBit(g, j);
      assert g[j] & 1 == g[j] % 2;
    }
    BitsDetermineByte(PackLsbs(g), b);
  }

  /** The packed byte is zero exactly when all 8 LSBs are zero. */
  lemma PackLsbsZero(g: seq<bv8>)
    requires |g| == 8
    ensures PackLsbs(g) == 0 <==> forall j :: 0 <= j < 8 ==> g[j] % 2 == 0
  {
    if forall j :: 0 <= j < 8 ==> g[j] % 2 == 0 {
      PackLsbsOfBits(g, 0);
    } else {
      var j :| 0 <= j < 8 && g[j] % 2 != 0;
      PackLsbsBit(g, j);
      assert g[j] & 1 == g[j] % 2;
    }
  }

  /** Each complete run of 8 bytes of an embedded buffer packs to its frame byte. */
  lemma PackEmbeddedGroup(p: seq<bv8>, f: seq<bv8>, k: nat)
    requires k < |f| && BitsPerByte * k + BitsPerByte <= |p|
    ensures PackLsbs(Group(Embed(p, f), k)) == f[k]
  {
    var g := Group(Embed(p, f), k);
    forall j | 0 <= j < 8 ensures g[j] % 2 == BitAt(f[k], j) {
      var i := BitsPerByte * k + j;
      assert g[j] == Embed(p, f)[i];
      assert i / BitsPerByte == k && i % BitsPerByte == j;
    }
    PackLsbsOfBits(g, f[k]);
  }

  // ---------------------------------------------------------------------
  // What the decoder finds

  /** The buffer holds `body` followed by a NUL, one byte per aligned run of 8. */
  ghost predicate Terminated(p: seq<bv8>, body: seq<bv8>)
  {
    && BitsPerByte * (|body| + 1) <= |p|
    && (forall k :: 0 <= k < |body| ==> body[k] != Nul && PackLsbs(Group(p, k)) == body[k])
    && PackLsbs(Group(p, |body|)) == Nul
  }

  /** Dropping the first run shifts every later run down by one. */
  lemma GroupOfTail(p: seq<bv8>, k: nat)
    requires BitsPerByte * k + 2 * BitsPerByte <= |p|
    ensures Group(p[BitsPerByte..], k) == Group(p, k + 1)
  {
  }

  /** What Scan finds is spelled by the runs of the buffer and then NUL. */
  lemma {:induction false} ScanSomeTerminated(p: seq<bv8>, body: seq<bv8>)
    requires Scan(p) == Some(body)
    ensures Terminated(p, body)
    decreases |p|
  {
    var c := PackLsbs(p[..BitsPerByte]);
    assert Group(p, 0) == p[..BitsPerByte];
    if c != Nul {
      var tail := p[BitsPerByte..];
      var rest := body[1..];
      assert body == [c] + rest && Scan(tail) == Some(rest);
      ScanSomeTerminated(tail, rest);
      forall k | 0 <= k <= |rest| ensures Group(tail, k) == Group(p, k + 1) {
        GroupOfTail(p, k);
      }
    }
  }

  /** Runs that spell `body` and then NUL are what Scan finds. */
  lemma {:induction false} TerminatedScanSome(p: seq<bv8>, body: seq<bv8>)
    requires Terminated(p, body)
    ensures Scan(p) == Some(body)
    decreases |p|
  {
    assert Group(p, 0) == p[..BitsPerByte];
    if body != [] {
      var tail := p[BitsPerByte..];
      var rest := body[1..];
      forall k | 0 <= k <= |rest| ensures Group(tail, k) == Group(p, k + 1) {
        GroupOfTail(p, k);
      }
      assert forall k :: 0 <= k < |rest| ==> rest[k] == body[k + 1];
      assert Terminated(tail, rest);
      TerminatedScanSome(tail, rest);
      assert [body[0]] + rest == body;
    }
  }

  /** Scan finds `body` exactly when the runs of the buffer spell `body` and then NUL. */
  lemma ScanTerminated(p: seq<bv8>, body: seq<bv8>)
    ensures Scan(p) == Some(body) <==> Terminated(p, body)
  {
    if Scan(p) == Some(body) {
      ScanSomeTerminated(p, body);
    }
    if Terminated(p, body) {
      TerminatedScanSome(p, body);
    }
  }

  /** Reading pixel byte i ORs its LSB into the accumulator of the run that
   *  began at `start`. */
  lemma PackLsbsNext(p: seq<bv8>, start: nat, i: nat)
    requires start <= i < |p| && i - start < 8
    ensures PackLsbs(p[start .. i + 1]) ==
              PackLsbs(p[start .. i]) | (if p[i] & 1 == 1 then BitMask(i - start) else 0)
  {
    var x := p[start .. i + 1];
    assert |x| - 1 == i - start && x[|x| - 1] == p[i];
    assert x[.. |x| - 1] == p[start .. i];
  }

  /** One complete run of the decoder: a zero byte ends the scan, any other
   *  byte is appended to what has been decoded so far. */
  lemma ScanStep(p: seq<bv8>, e: seq<bv8>, start: nat)
    requires start + BitsPerByte <= |p|
    requires Prepend(e, Scan(p[start..])) == Scan(p)
    ensures PackLsbs(p[start .. start + BitsPerByte]) == Nul ==> Scan(p) == Some(e)
    ensures PackLsbs(p[start .. start + BitsPerByte]) != Nul ==>
              Prepend(e + [PackLsbs(p[start .. start + BitsPerByte])],
                      Scan(p[start + BitsPerByte ..])) == Scan(p)
  {
    var q := p[start..];
    var c := PackLsbs(p[start .. start + BitsPerByte]);
    assert q[..BitsPerByte] == p[start .. start + BitsPerByte];
    assert q[BitsPerByte..] == p[start + BitsPerByte ..];
    if c == Nul {
      assert Scan(q) == Some([]);
      assert e + [] == e;
    } else {
      assert Scan(q) == Prepend([c], Scan(p[start + BitsPerByte ..]));
      match Scan(p[start + BitsPerByte ..])
      case None =>
      case Some(rest) =>
        assert (e + [c]) + rest == e + ([c] + rest);
    }
  }

  /** One iteration of the decoding loop at pixel byte i of the current run
   *  (which starts at `start`): ORing the byte's LSB into the accumulator at
   *  bit i - start packs one more byte of the run, and when the run is
   *  complete the accumulator is either the terminator, which ends Scan at
   *  the bytes decoded so far, or one more decoded byte. */
  lemma ReadStep(p: seq<bv8>, e: seq<bv8>, start: nat, i: nat, acc: bv8, acc': bv8)
    requires start <= i < |p| && i - start < BitsPerByte
    requires acc == PackLsbs(p[start .. i])
    requires Prepend(e, Scan(p[start..])) == Scan(p)
    requires acc' == if p[i] & 1 == 1 then acc | BitMask(i - start) else acc
    ensures acc' == PackLsbs(p[start .. i + 1])
    ensures i - start == BitsPerByte - 1 && acc' == Nul ==> Scan(p) == Some(e)
    ensures i - start == BitsPerByte - 1 && acc' != Nul ==>
              Prepend(e + [acc'], Scan(p[i + 1 ..])) == Scan(p)
  {
    PackLsbsNext(p, start, i);
    if p[i] & 1 != 1 {
      assert acc | 0 == acc;
    }
    if i - start == BitsPerByte - 1 {
      assert p[start .. i + 1] == p[start .. start + BitsPerByte];
      ScanStep(p, e, start);
    }
  }

  /** Fewer than 8 bytes left: the decoder has found no terminator. */
  lemma ScanEnd(p: seq<bv8>, e: seq<bv8>, start: nat)
    requires start <= |p| < start + BitsPerByte
    requires Prepend(e, Scan(p[start..])) == Scan(p)
    ensures Scan(p) == None
  {
  }

  /** Scan fails exactly when no complete aligned run of 8 LSBs is all zero. */
  lemma {:induction false} ScanNone(p: seq<bv8>)
    ensures Scan(p).None? <==>
              forall k :: 0 <= k < |p| / BitsPerByte ==> PackLsbs(Group(p, k)) != Nul
    decreases |p|
  {
    if |p| < BitsPerByte {
      return;
    }
    assert Group(p, 0) == p[..BitsPerByte];
    var tail := p[BitsPerByte..];
    ScanNone(tail);
    assert |tail| / BitsPerByte == |p| / BitsPerByte - 1;
    forall k | 0 <= k < |tail| / BitsPerByte ensures Group(tail, k) == Group(p, k + 1) {
      GroupOfTail(p, k);
    }
    if PackLsbs(p[..BitsPerByte]) != Nul {
      forall k | 0 <= k < |p| / BitsPerByte
        ensures PackLsbs(Group(p, k)) != Nul <==> (k == 0 || PackLsbs(Group(tail, k - 1)) != Nul)
      {
        if k > 0 { GroupOfTail(p, k - 1); }
      }
    }
  }

  /** unhide reports BadMsg exactly when no complete aligned run of 8 pixel
   *  bytes has all LSBs zero; a trailing partial run never ends a message. */
  lemma DecodeBadMsg(p: seq<bv8>)
    ensures Decode(p) == Failure(BadMsg) <==>
              forall k :: 0 <= k < |p| / BitsPerByte ==> PackLsbs(Group(p, k)) != Nul
  {
    ScanNone(p);
  }

  /** unhide reports BadMagic2 exactly when a terminator is found but the
   *  bytes decoded before it do not start with the magic. */
  lemma DecodeBadMagic2(p: seq<bv8>)
    ensures Decode(p) == Failure(BadMagic2) <==>
              exists body :: Terminated(p, body) && (|body| < |Magic| || body[..|Magic|] != Magic)
  {
    if Decode(p) == Failure(BadMagic2) {
      var body :| Scan(p) == Some(body);
      ScanTerminated(p, body);
    }
    if body :| Terminated(p, body) && (|body| < |Magic| || body[..|Magic|] != Magic) {
      ScanTerminated(p, body);
    }
  }

  /** unhide succeeds with m exactly when the buffer's runs spell the frame of
   *  m and m holds no NUL. */
  lemma DecodeSuccess(p: seq<bv8>, m: seq<bv8>)
    ensures Decode(p) == Success(m) <==>
              && Nul !in m
              && BitsPerByte * |Frame(m)| <= |p|
              && forall k :: 0 <= k < |Frame(m)| ==> PackLsbs(Group(p, k)) == Frame(m)[k]
  {
    var body := Magic + m;
    assert Frame(m) == body + [Nul];
    ScanTerminated(p, body);
    if Decode(p) == Success(m) {
      var b :| Scan(p) == Some(b);
      assert b[..|Magic|] == Magic && b[|Magic|..] == m;
      assert b == body;
      forall x | x in m ensures x != Nul {
        var i :| 0 <= i < |m| && m[i] == x;
        assert body[|Magic| + i] == x;
      }
    }
    if && Nul !in m
       && BitsPerByte * |Frame(m)| <= |p|
       && forall k :: 0 <= k < |Frame(m)| ==> PackLsbs(Group(p, k)) == Frame(m)[k]
    {
      forall k | 0 <= k < |body| ensures body[k] != Nul && PackLsbs(Group(p, k)) == body[k] {
        assert Frame(m)[k] == body[k];
        if k >= |Magic| { assert body[k] == m[k - |Magic|]; }
      }
      assert Frame(m)[|body|] == Nul;
      assert Terminated(p, body);
      assert body[..|Magic|] == Magic && body[|Magic|..] == m;
    }
  }

  /** A buffer whose first 8 LSBs are all zero decodes to the empty string,
   *  which lacks the magic. */
  lemma LeadingZeroRunHasNoMagic(p: seq<bv8>)
    requires BitsPerByte <= |p|
    requires forall j :: 0 <= j < BitsPerByte ==> p[j] % 2 == 0
    ensures Decode(p) == Failure(BadMagic2)
  {
    PackLsbsZero(p[..BitsPerByte]);
  }

  // ---------------------------------------------------------------------
  // Round trip and collision guard

  /** Decoding an embedded frame yields the message up to its first NUL. */
  lemma DecodeEmbeddedFrame(p: seq<bv8>, m: seq<bv8>)
    requires BitsPerByte * |Frame(m)| <= |p|
    ensures Decode(Embed(p, Frame(m))) == Success(TakeUntilNul(m))
  {
    var q := Embed(p, Frame(m));
    var t := TakeUntilNul(m);
    forall k | 0 <= k < |Frame(t)| ensures PackLsbs(Group(q, k)) == Frame(t)[k] {
      PackEmbeddedGroup(p, Frame(m), k);
      if k < |Magic| + |t| {
        assert Frame(t)[k] == Frame(m)[k];
      } else {
        assert k == |Magic| + |t|;
        assert Frame(m)[k] == Nul;
      }
    }
    DecodeSuccess(q, t);
  }

  /** Round trip: unhide of what hide produced returns the message, provided
   *  the message holds no NUL. */
  lemma HideUnhideRoundTrip(p: seq<bv8>, m: seq<bv8>)
    requires Nul !in m
    requires Decode(p).Failure?
    requires BitsPerByte * (|Magic| + |m| + 1) <= |p|
    ensures HideSpec(p, m).Success?
    ensures Decode(HideSpec(p, m).value) == Success(m)
  {
    DecodeEmbeddedFrame(p, m);
    assert TakeUntilNul(m) == m;
  }

  /** hide refuses every output of hide, whatever the second message. */
  lemma HideTwiceFails(p: seq<bv8>, m: seq<bv8>, m2: seq<bv8>)
    requires HideSpec(p, m).Success?
    ensures HideSpec(HideSpec(p, m).value, m2) == Failure(BadMagic1)
  {
    DecodeEmbeddedFrame(p, m);
  }

  // ---------------------------------------------------------------------
  // The capacity check as the source writes it

  /** The source's guard before writing the bit at pixel index byteIndex:
   *  the index exceeds the buffer length. */
  predicate BitPastEnd(byteIndex: nat, len: nat)
  {
    byteIndex > len
  }

  /** Whether the guard trips at some bit index from byteIndex up to nBits,
   *  visiting them in the order hide's loops do. */
  function GuardTrips(byteIndex: nat, nBits: nat, len: nat): (tripped: bool)
    ensures tripped <==> exists i :: byteIndex <= i < nBits && BitPastEnd(i, len)
    decreases nBits - byteIndex
  {
    if byteIndex >= nBits then false
    else BitPastEnd(byteIndex, len) || GuardTrips(byteIndex + 1, nBits, len)
  }

  /** hide with the source's per-bit guard `byteIndex > length`: it trips only
   *  once a bit's index exceeds the length, so it reports TooBig only when
   *  the frame needs more than length + 1 bits; a write at index `length` is
   *  dropped by the typed array, so one bit too many still "succeeds". */
  function HideAsWritten(p: seq<bv8>, msg: seq<bv8>): (r: Result<seq<bv8>, StegError>)
    ensures r == Failure(TooBig) <==>
              Decode(p).Failure? && BitsPerByte * |Frame(msg)| > |p| + 1
    ensures r.Success? ==> r.value == Embed(p, Frame(msg))
  {
    var nBits := BitsPerByte * |Frame(msg)|;
    assert GuardTrips(0, nBits, |p|) <==> nBits > |p| + 1 by {
      if nBits > |p| + 1 {
        assert BitPastEnd(nBits - 1, |p|);
      }
    }
    if Decode(p).Success? then Failure(BadMagic1)
    else if GuardTrips(0, nBits, |p|) then Failure(TooBig)
    else Success(Embed(p, Frame(msg)))
  }

  /** When the frame is one bit longer than the buffer, the source's hide
   *  reports success, yet its output has lost the terminator's last bit and
   *  unhide rejects it; the up-front check reports TooBig instead. */
  lemma AsWrittenLosesTerminator(p: seq<bv8>, m: seq<bv8>)
    requires Nul !in m
    requires Decode(p).Failure?
    requires |p| + 1 == BitsPerByte * |Frame(m)|
    ensures HideAsWritten(p, m).Success?
    ensures Decode(HideAsWritten(p, m).value) == Failure(BadMsg)
    ensures HideSpec(p, m) == Failure(TooBig)
  {
    var f := Frame(m);
    var q := Embed(p, f);
    assert |q| / BitsPerByte == |f| - 1;
    forall k | 0 <= k < |q| / BitsPerByte ensures PackLsbs(Group(q, k)) != Nul {
      PackEmbeddedGroup(p, f, k);
      if k >= |Magic| { assert f[k] == m[k - |Magic|]; }
    }
    DecodeBadMsg(q);
  }

  // ---------------------------------------------------------------------
  // Concrete scenarios

  /** An empty message needs 32 pixel bytes: 64 zero bytes take it and give
   *  it back, 31 zero bytes do not. */
  lemma EmptyMessageScenario()
    ensures HideSpec(seq(64, _ => 0), []).Success?
    ensures Decode(HideSpec(seq(64, _ => 0), []).value) == Success([])
    ensures HideSpec(seq(31, _ => 0), []) == Failure(TooBig)
  {
    var p: seq<bv8> := seq(64, _ => 0);
    LeadingZeroRunHasNoMagic(p);
    HideUnhideRoundTrip(p, []);
    LeadingZeroRunHasNoMagic(seq(31, _ => 0));
  }
}
