# LSB steganography codec and image-id helpers, in Dafny

This project models two pieces of an image-steganography service:

- **The StegModule codec (steg_module.js).** `hide(msg)` builds the frame
  `"stg" ‖ msg ‖ NUL` in a copy of a PPM image. It writes each frame byte
  MSB-first into the least-significant bits of successive pixel bytes. It
  first refuses an image that already decodes to a hidden message, and it
  refuses a frame that does not fit. `unhide()` packs the LSBs of each run
  of 8 pixel bytes MSB-first into one byte and stops at the first zero byte.
  It then checks that a terminator was found and that the decoded bytes
  start with `"stg"`, and returns them with the magic stripped.
- **The string helpers of img-store.js.** `toImgId` and `fromImgId` build
  and split ids of the form `group/name[.type]`. The validators `isBadGroup`,
  `isBadName`, `isBadExt` and `isBadType` check against the permitted types
  `IMG_TYPES = ["ppm", "png"]`.

Files:

- `wrappers.dfy`: `Option` and `Result`.
- `lsb.dfy` (module `Lsb`): the codec as pure functions over the sequence of
  pixel bytes (`seq<bv8>`), with the laws that connect them. These functions
  are `Frame`, `Embed`, `PackLsbs`, `Scan`, `Decode` and `HideSpec`. The laws
  are the round trip, the collision guard, the capacity bound, the exact
  conditions for each `unhide` error, and which bits `hide` touches.
- `steg_module.dfy` (module `Steg`): the classes `Ppm` and `StegModule`.
  `Unhide` is the source's loop: the bit accumulator `binaryMsg`, the decoded
  bytes `encodedMsg`, the `nullFlag` and the early `break`. The mask
  `1 << (7 - byteIndex % 8)` is read from the table `BitMask`, which
  `BitMaskIsShift` proves equal to the shift. `Hide` copies the
  image and runs the source's nested loops over frame bytes and bits in
  `EmbedBits`, in place on the copy's array. Both methods are proved equal to
  the functions of `Lsb`.
- `img_ids.dfy` (module `ImgIds`): the id helpers and validators, with
  `trim` and `lastIndexOf` modelled as in ECMAScript.

`hide` and `unhide` leave the `StegModule`'s own image untouched. Neither
method has a `modifies` clause, so Dafny proves that no object that existed
before the call changes. `Hide` writes only to the array it allocates for
the copy, and its contract says that the returned image and its array are
newly allocated.

## Model

| member | source | states |
|---|---|---|
| `Lsb.Frame` | steg_module.js:68 | the frame is the 3 magic bytes, then the message, then one NUL; its length is the message length plus 4 |
| `Lsb.BitAt` | steg_module.js:75-83 | bit j, MSB first, of a frame byte as 0 or 1, which is digit j of the zero-padded 8-digit binary string and what the `binaryMsg[binaryIndex] == 1` test reads; its relation to the packing is stated by `BitAtOrMask`, `PackLsbsBit` and `PackLsbsOfBits` |
| `Lsb.SetLsb` | steg_module.js:83-86 | `\|= 1` and `&= ~1` leave the upper 7 bits of a pixel byte unchanged and make its LSB the given bit |
| `Lsb.Embed` | steg_module.js:72-88 | writing the frame keeps the buffer length; pixel byte i < 8·\|frame\| keeps its upper 7 bits and takes bit i%8 (MSB first) of frame byte i/8 as its LSB; every later byte is unchanged |
| `Lsb.HideSpec` | steg_module.js:58-92 | hide fails with BadMagic1 whenever the image already decodes; it fails with TooBig exactly when it does not decode and 8·(3+\|msg\|+1) exceeds the pixel count; it succeeds exactly otherwise, keeping the length, changing only LSBs of the first 8·\|frame\| bytes to the frame bits, and leaving the rest untouched |
| `Lsb.PackLsbs` | steg_module.js:135-136 | the accumulator after reading up to 8 bytes of a run; no contract of its own, its meaning is stated by `PackLsbsBit`, `PackLsbsOfBits` and `PackLsbsZero` |
| `Lsb.Scan` | steg_module.js:122-155 | the decoding loop's outcome: the decoded bytes never hold NUL, and they plus the terminator run fit in the buffer; exactly characterised by `ScanTerminated` and `ScanNone` |
| `Lsb.Decode` | steg_module.js:122-170 | what unhide returns: its only errors are BadMsg and BadMagic2, and a decoded message holds no NUL and its frame fits in the buffer; exactly characterised by `DecodeBadMsg`, `DecodeBadMagic2` and `DecodeSuccess` |
| `Lsb.BitMaskIsShift` | steg_module.js:136 | the mask table used for bit j of the accumulator equals `1 << (7 - j)` for every j < 8 |
| `Lsb.PackLsbsBit` | steg_module.js:135-136 | bit j (MSB first) of the accumulator after reading some bytes of a run is the LSB of the j-th byte read, and 0 for bytes not yet read |
| `Lsb.PackLsbsOfBits` | steg_module.js:135-151 | a run of 8 bytes whose LSBs spell the bits of b, MSB first, packs back to b |
| `Lsb.PackLsbsZero` | steg_module.js:145-148 | a run packs to the NUL terminator exactly when all 8 of its LSBs are 0 |
| `Lsb.PackEmbeddedGroup` | steg_module.js:74-86 | after embedding, the k-th complete run of 8 pixel bytes packs to frame byte k |
| `Lsb.ScanTerminated` | steg_module.js:122-155 | the decoding loop ends at a terminator with decoded bytes `body` exactly when the aligned runs pack to `body`'s bytes, none of them zero, followed by a zero run that fits in the buffer |
| `Lsb.ReadStep` | steg_module.js:124-154 | one pass of the decoding loop: ORing in the byte's LSB packs one more byte of the run; at the end of a run a zero accumulator makes the bytes decoded so far the scan result, and a non-zero one is the next decoded byte |
| `Lsb.ScanNone` | steg_module.js:122-155 | the decoding loop runs off the end exactly when no complete aligned run packs to zero; a trailing partial run never counts |
| `Lsb.DecodeBadMsg` | steg_module.js:157-159 | unhide returns BadMsg exactly when no complete aligned run of 8 pixel bytes has all LSBs zero |
| `Lsb.DecodeBadMagic2` | steg_module.js:157-163 | unhide returns BadMagic2 exactly when a terminator run is found but the bytes decoded before it are shorter than the magic or do not start with it |
| `Lsb.DecodeSuccess` | steg_module.js:122-170 | unhide returns m exactly when m holds no NUL, the frame of m fits, and the runs of the buffer pack to that frame byte by byte |
| `Lsb.LeadingZeroRunHasNoMagic` | steg_module.js:161-163 | a buffer whose first 8 LSBs are all 0 decodes to the empty string and fails with BadMagic2 |
| `Lsb.DecodeEmbeddedFrame` | steg_module.js:68-88 | decoding a buffer with an embedded frame returns the message up to its first NUL |
| `Lsb.HideUnhideRoundTrip` | steg_module.js:38-46 | for a message without NUL that fits, in an image that does not already decode, hide succeeds and unhide of its output returns the message |
| `Lsb.HideTwiceFails` | steg_module.js:60-63 | hide on any output of hide fails with BadMagic1, whatever the second message |
| `Lsb.GuardTrips` | steg_module.js:74-81 | the guard `byteIndex > length`, checked before each bit index the loops visit, trips exactly when some visited index exceeds the length |
| `Lsb.HideAsWritten` | steg_module.js:58-88 | hide with the per-bit guard as the source writes it reports TooBig exactly when the image does not decode and the frame needs more than length + 1 bits; on success its output is `Embed` of the frame |
| `Lsb.AsWrittenLosesTerminator` | steg_module.js:80-81 | with a frame one bit longer than the buffer, the source's hide succeeds but unhide of its output fails with BadMsg, while the up-front check reports TooBig |
| `Lsb.EmptyMessageScenario` | steg_module.js:50-51 | an empty message fits in 64 zero pixel bytes and comes back as the empty message; in 31 zero bytes, hide fails with TooBig |
| `Steg.Ppm.Copy` | steg_module.js:70 | the copy has the same metadata and a fresh array holding the same pixel bytes |
| `Steg.StegModule.constructor` | steg_module.js:17-20 | the module holds the given image |
| `Steg.StegModule.Unhide` | steg_module.js:111-171 | the loop's result is `Decode` of the image's pixel bytes: BadMsg, BadMagic2, or the message with the magic stripped |
| `Steg.StegModule.Hide` | steg_module.js:58-92 | hide fails exactly when `HideSpec` fails, with the same error; on success it returns a newly allocated image over a newly allocated array, with the same metadata and pixel bytes equal to `HideSpec`'s |
| `Steg.EmbedBits` | steg_module.js:72-88 | the nested loops leave the array equal to `Embed` of its old contents and the frame |
| `Steg.EmbedByte` | steg_module.js:75-87 | the inner loop sets the LSB of each of the 8 bytes from `at` to the matching bit of the frame byte, MSB first, keeps their upper 7 bits, and changes no other byte |
| `ImgIds.Trim` | img-store.js:309 | `trim()` yields the empty string exactly when every character is ECMAScript white space, and otherwise starts and ends with a non-white-space character |
| `ImgIds.LastIndexOf` | img-store.js:293 | the result is -1 exactly when the character is absent; otherwise it is an index holding the character with none after it |
| `ImgIds.ToImgId` | img-store.js:285-289 | the group, '/', the name, then '.' and the type when the type is non-empty; no contract of its own, it is undone by `FromImgId` as `FromToImgId` states |
| `ImgIds.FromImgId` | img-store.js:292-296 | it fails (the assert) exactly when no '/' occurs after the first character; otherwise it returns a non-empty group and a name without '/' that rejoin with '/' to the id |
| `ImgIds.FromToImgId` | img-store.js:285-296 | splitting `toImgId(group, name, type)` gives back the group, even one holding '/', and the name, with ".type" appended when the type is non-empty; this needs a non-empty group and no '/' in name or type |
| `ImgIds.ValidIdRoundTrip` | img-store.js:308-317 | a group and a name that both validators accept survive `fromImgId(toImgId(group, name, ""))` |
| `ImgIds.IsBadGroup` | img-store.js:308-311 | an error (code BAD_GROUP) exactly when the group is blank or contains NUL |
| `ImgIds.IsBadName` | img-store.js:313-317 | an error (code BAD_NAME) exactly when the name is blank or contains NUL or '/' |
| `ImgIds.ExtOf` | img-store.js:320-321 | the type read from a path holds no '.'; when the path has a '.', the path ends with '.' and that type, and otherwise the type is "" |
| `ImgIds.ExtOfPermitted` | img-store.js:319-323 | the type after the path's last '.' (or "" without one) is in `IMG_TYPES` exactly when the path ends in '.' and a permitted type |
| `ImgIds.IsBadExt` | img-store.js:319-324 | no error exactly when the path ends with '.' followed by a type of `IMG_TYPES`; otherwise BAD_TYPE |
| `ImgIds.IsBadType` | img-store.js:331-334 | no error exactly when the type is "ppm" or "png" (`IMG_TYPES`, img-store.js:67-70); otherwise BAD_TYPE |

## Left out

- ppm.js is not part of this model. The `Ppm` class keeps only its metadata
  and its pixel bytes. Its plain constructor stands in for parsing, which is
  not modelled.
- The `id` of a `StegModule`, and the error strings that prefix it, are not
  modelled. The errors are the enumeration `TooBig`, `BadMagic1`,
  `BadMagic2`, `BadMsg`.
- Messages are byte sequences. The source reads 8 binary digits from each
  JavaScript char code. It writes each decoded byte back as a char with
  `String.fromCharCode`. Char codes of 256 and above are not modelled.
- Steg.StegModule.Hide: it checks the capacity in full before writing any
  bit, as the comment at steg_module.js:50-51 describes. The source's
  per-bit check behaves differently (see Findings).
- `HideAsWritten` assumes that `pixelBytes` is a typed array, which ignores
  a write at index `length`. With a plain array, that write (`&= ~1` for
  the terminator's last bit, which is 0) appends a byte whose LSB is 0, so
  hide succeeds with an output one byte longer, and that output decodes to
  the message. Only the typed array loses the terminator.
- Dafny strings are sequences of Unicode scalar values, while JavaScript
  strings are UTF-16 code units. `trim` is modelled with the ECMAScript
  white-space and line-terminator set.
- The `ImgError` message strings are kept but are not reasoned about.
  Only their codes are part of the contracts.
- index.js (Express routes and HTML) and steg-ws.js (HTTP handlers) are not
  part of this model. They are I/O plumbing.
- Some of img-store.js is not part of this model: the `ImgStore` database
  and file-system methods (`get`, `list`, `meta`, `put`, `close`),
  `isBadPath` and `pathToNameExt`. These depend on MongoDB, the file system,
  an external `convert` process and the clock.

## Findings

| source | as written | input that shows it | evidently intended | confidence | as-written member | corrected member |
|---|---|---|---|---|---|---|
| steg_module.js:80 | `if(byteIndex > ppmClone.pixelBytes.length)` before each bit; the bit at index `length` passes the check | empty message in 31 pixel bytes whose LSBs are 0: hide succeeds, and unhide of the output finds "stg" but no terminator (BadMsg) | fail with TooBig whenever 8·\|frame\| exceeds the pixel count (steg_module.js:50-51), before any write | not executed; the BadMsg outcome holds when `pixelBytes` is a typed array, which drops the write at index `length`; with a plain array the output grows by one byte and still decodes, and ppm.js is not part of this model | `Lsb.AsWrittenLosesTerminator` | `Lsb.HideSpec` |
