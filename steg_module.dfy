/** The StegModule object of steg_module.js: it wraps one PPM image and hides
 *  a message in, or recovers one from, the LSBs of its pixel bytes. Both
 *  methods are proved against the functions of module Lsb. */
module Steg {
  import opened Wrappers
  import opened Lsb

  /** The PPM header information that a copy carries over unchanged. */
  datatype PpmMeta = PpmMeta(width: nat, height: nat, maxVal: nat, nHeaderBytes: nat)

  /** A PPM image as the codec sees it: its metadata and its pixel bytes. */
  class Ppm {
    const meta: PpmMeta
    const pixelBytes: array<bv8>

    constructor (meta: PpmMeta, pixelBytes: array<bv8>)
      ensures this.meta == meta && this.pixelBytes == pixelBytes
    {
      this.meta := meta;
      this.pixelBytes := pixelBytes;
    }

    /** `new Ppm(ppm)`: the same metadata over a private copy of the pixel bytes. */
    constructor Copy(src: Ppm)
      ensures meta == src.meta
      ensures fresh(pixelBytes) && pixelBytes[..] == src.pixelBytes[..]
    {
      meta := src.meta;
      pixelBytes := new bv8[src.pixelBytes.Length](
        i requires 0 <= i < src.pixelBytes.Length reads src.pixelBytes => src.pixelBytes[i]);
    }
  }

  class StegModule {
    const ppm: Ppm

    constructor (ppm: Ppm)
      ensures this.ppm == ppm
    {
      this.ppm := ppm;
    }

    /** Recovers the hidden message: packs the LSBs of each run of 8 pixel
     *  bytes MSB-first into one byte, stops at the first zero byte, then
     *  checks the terminator and the magic and strips the magic. Only reads. */
    method Unhide() returns (r: Result<seq<bv8>, StegError>)
      ensures r == Decode(ppm.pixelBytes[..])
    {
      var pixels := ppm.pixelBytes;
      ghost var data := pixels[..];
      var binaryMsg: bv8 := 0;
      var encodedMsg: seq<bv8> := [];
      var nullFlag := true;
      var byteIndex := 0;
      ghost var start := 0;
      assert data[0..] == data;
      assert Prepend([], Scan(data)) == Scan(data) by {
        if Scan(data).Some? { assert [] + Scan(data).value == Scan(data).value; }
      }
      while byteIndex < pixels.Length
        invariant 0 <= start <= byteIndex <= pixels.Length && byteIndex - start == byteIndex % 8
        invariant nullFlag
        invariant binaryMsg == PackLsbs(data[start .. byteIndex])
        invariant Prepend(encodedMsg, Scan(data[start..])) == Scan(data)
      {
        var byte := pixels[byteIndex];
        ghost var acc := binaryMsg;
        assert byte == data[byteIndex] && byteIndex % 8 == byteIndex - start;
        assert (byteIndex + 1) % 8 == if byteIndex % 8 == 7 then 0 else byteIndex % 8 + 1;
        // The source ORs in `1 << (7 - byteIndex % 8)`, which is
        // BitMask(byteIndex % 8) (Lsb.BitMaskIsShift).
        if byte & 1 == 1 {
          binaryMsg := binaryMsg | BitMask(byteIndex % 8);
        }
        ReadStep(data, encodedMsg, start, byteIndex, acc, binaryMsg);
        if byteIndex % 8 == 7 {
          if binaryMsg == 0 {
            nullFlag := false;
            break;
          }
          encodedMsg := encodedMsg + [binaryMsg];
          binaryMsg := 0;
          start := byteIndex + 1;
        }
        byteIndex := byteIndex + 1;
      }
      if nullFlag {
        ScanEnd(data, encodedMsg, start);
        return Failure(BadMsg);
      }
      if |encodedMsg| < |Magic| || encodedMsg[..|Magic|] != Magic {
        return Failure(BadMagic2);
      }
      return Success(encodedMsg[|Magic|..]);
    }

    /** Hides msg in a copy of the image: refuses an image that already holds
     *  a message, refuses a frame that does not fit, and otherwise writes the
     *  frame's bits MSB-first into the LSBs of the copy's pixel bytes. This
     *  object's image is only read. */
    method Hide(msg: seq<bv8>) returns (r: Result<Ppm, StegError>)
      ensures r.Failure? <==> HideSpec(ppm.pixelBytes[..], msg).Failure?
      ensures r.Failure? ==> r.error == HideSpec(ppm.pixelBytes[..], msg).error
      ensures r.Success? ==>
                && r.value.meta == ppm.meta
                && fresh(r.value) && fresh(r.value.pixelBytes)
                && r.value.pixelBytes[..] == HideSpec(ppm.pixelBytes[..], msg).value
    {
      var hiddenMsg := Unhide();
      if hiddenMsg.Success? {
        return Failure(BadMagic1);
      }
      var frame := Frame(msg);
      // The source tests `byteIndex > length` before each bit instead, which
      // lets a frame one bit too long through (see Lsb.HideAsWritten).
      if BitsPerByte * |frame| > ppm.pixelBytes.Length {
        return Failure(TooBig);
      }
      var ppmClone := new Ppm.Copy(ppm);
      EmbedBits(ppmClone.pixelBytes, frame);
      return Success(ppmClone);
    }
  }

  /** The nested loops of hide: unpacks each frame byte MSB-first into the
   *  LSBs of successive bytes of out, starting at index 0. */
  method EmbedBits(out: array<bv8>, frame: seq<bv8>)
    requires BitsPerByte * |frame| <= out.Length
    modifies out
    ensures out[..] == Embed(old(out[..]), frame)
  {
    ghost var p := out[..];
    var byteIndex := 0;
    for msgIndex := 0 to |frame|
      invariant byteIndex == BitsPerByte * msgIndex
      invariant forall k :: 0 <= k < byteIndex ==> out[k] == SetLsb(p[k], FrameBit(frame, k))
      invariant forall k :: byteIndex <= k < out.Length ==> out[k] == p[k]
    {
      EmbedByte(out, byteIndex, frame[msgIndex]);
      forall k | byteIndex <= k < byteIndex + BitsPerByte
        ensures out[k] == SetLsb(p[k], FrameBit(frame, k))
      {
        FrameBitOfByte(frame, msgIndex, k - byteIndex);
      }
      byteIndex := byteIndex + BitsPerByte;
    }
    forall i | 0 <= i < out.Length ensures out[i] == Embed(p, frame)[i] {
      EmbedAt(p, frame, i);
    }
  }

  /** The inner loop of hide: the bits of one frame byte b, MSB first, into
   *  the LSBs of out[at], ..., out[at + 7]. */
  method EmbedByte(out: array<bv8>, at: nat, b: bv8)
    requires at + BitsPerByte <= out.Length
    modifies out
    ensures forall k :: at <= k < at + BitsPerByte ==> out[k] == SetLsb(old(out[k]), BitAt(b, k - at))
    ensures forall k :: 0 <= k < out.Length && !(at <= k < at + BitsPerByte) ==> out[k] == old(out[k])
  {
    ghost var p := out[..];
    var byteIndex := at;
    for binaryIndex := 0 to 8
      invariant byteIndex == at + binaryIndex
      invariant forall k :: at <= k < byteIndex ==> out[k] == SetLsb(p[k], BitAt(b, k - at))
      invariant forall k :: 0 <= k < out.Length && !(at <= k < byteIndex) ==> out[k] == p[k]
    {
      var bit := BitAt(b, binaryIndex);
      if bit == 1 {
        out[byteIndex] := out[byteIndex] | 1;
      } else {
        out[byteIndex] := out[byteIndex] & !1;
      }
      byteIndex := byteIndex + 1;
    }
  }
}
