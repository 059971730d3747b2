/** Recognising a square PNG icon from the first bytes of the file: the
    8-byte signature (section 5.2 of the PNG specification, ISO/IEC 15948)
    followed by an IHDR chunk (sections 5.3 and 11.2.2) whose big-endian
    width and height are equal and non-zero. */
module Png {
  import opened Bytes
  import opened Icons

  /** 137 'P' 'N' 'G' CR LF SUB LF */
  const Signature: seq<byte> := [0x89, 0x50, 0x4E, 0x47, 0x0D, 0x0A, 0x1A, 0x0A]

  /** The chunk type "IHDR" in ASCII. */
  const IhdrType: seq<byte> := [0x49, 0x48, 0x44, 0x52]

  /** Shortest input accepted: the 8-byte signature, the IHDR length and
      type (4 bytes each), the 13-byte IHDR body and its 4-byte CRC. */
  const MinLength: nat := 33

  /** Big-endian unsigned 32-bit field starting at byte `at`. */
  function U32At(data: seq<byte>, at: nat): nat
    requires at + 4 <= |data|
  {
    DecodeBE(data[at..at + 4])
  }

  /** Everything the header checks demand of the file contents. */
  predicate IsSquarePngHeader(data: seq<byte>)
  {
    && |data| >= MinLength
    && data[..8] == Signature
    && data[12..16] == IhdrType
    && U32At(data, 8) >= 8
    && U32At(data, 16) == U32At(data, 20)
    && U32At(data, 16) != 0
  }

  /** `read_png` on contents already read from `path`. */
  function ReadPng(path: string, data: seq<byte>): (r: Result<Icon>)
    ensures r.Ok? <==> IsSquarePngHeader(data)
    ensures r.Ok? ==> r.value == Icon(path, U32At(data, 16), data)
    ensures r.Ok? ==> 0 < r.value.size < Pow256(4)
    ensures r.Err? && (|data| < MinLength || data[..8] != Signature) ==> r.error == NotPng(path)
    ensures (r.Err? && |data| >= MinLength && data[..8] == Signature
             && (data[12..16] != IhdrType || U32At(data, 8) < 8)) ==> r.error == BadIhdr(path)
  {
    if |data| < MinLength || data[..8] != Signature then
      Err(NotPng(path))
    else
      var ihdrLen := U32At(data, 8);
      var ihdrType := data[12..16];
      if ihdrType != IhdrType || ihdrLen < 8 then
        Err(BadIhdr(path))
      else
        var width := U32At(data, 16);
        var height := U32At(data, 20);
        DecodeBEBound(data[16..20]);
        if width != height then
          Err(NotSquare(path, width, height))
        else if width == 0 then
          Err(ZeroSize(path))
        else
          Ok(Icon(path, width, data))
  }

  /** The first 24 bytes of a PNG file whose IHDR chunk declares length
      `ihdrLen`, width `w` and height `h`, followed by `rest`. */
  function Header(ihdrLen: nat, w: nat, h: nat, rest: seq<byte>): (data: seq<byte>)
    ensures |data| == 24 + |rest|
  {
    Signature + BE(ihdrLen, 4) + IhdrType + BE(w, 4) + BE(h, 4) + rest
  }

  /** The fields of a built header read back as they were written. */
  lemma HeaderFields(ihdrLen: nat, w: nat, h: nat, rest: seq<byte>)
    requires ihdrLen < Pow256(4) && w < Pow256(4) && h < Pow256(4)
    ensures var data := Header(ihdrLen, w, h, rest);
      && data[..8] == Signature && data[12..16] == IhdrType
      && U32At(data, 8) == ihdrLen && U32At(data, 16) == w && U32At(data, 20) == h
      && data[24..] == rest
  {
    var data := Header(ihdrLen, w, h, rest);
    assert data[8..12] == BE(ihdrLen, 4);
    assert data[16..20] == BE(w, 4);
    assert data[20..24] == BE(h, 4);
    DecodeEncodeBE(ihdrLen, 4);
    DecodeEncodeBE(w, 4);
    DecodeEncodeBE(h, 4);
  }

  /** Any PNG file that starts with a square, non-empty IHDR is accepted with
      its declared width as the icon size (at least 9 bytes follow the width and
      height: the last 5 bytes of the IHDR body and its 4-byte CRC). */
  lemma AcceptsSquare(path: string, ihdrLen: nat, w: nat, rest: seq<byte>)
    requires 8 <= ihdrLen < Pow256(4) && 0 < w < Pow256(4)
    requires |rest| >= 9
    ensures ReadPng(path, Header(ihdrLen, w, w, rest)) == Ok(Icon(path, w, Header(ihdrLen, w, w, rest)))
  {
    HeaderFields(ihdrLen, w, w, rest);
  }

  /** A rectangular image is rejected, naming both dimensions. */
  lemma RejectsNonSquare(path: string, ihdrLen: nat, w: nat, h: nat, rest: seq<byte>)
    requires 8 <= ihdrLen < Pow256(4) && w < Pow256(4) && h < Pow256(4) && w != h
    requires |rest| >= 9
    ensures ReadPng(path, Header(ihdrLen, w, h, rest)) == Err(NotSquare(path, w, h))
  {
    HeaderFields(ihdrLen, w, h, rest);
  }

  /** A 0x0 image is rejected. */
  lemma RejectsZeroSize(path: string, ihdrLen: nat, rest: seq<byte>)
    requires 8 <= ihdrLen < Pow256(4)
    requires |rest| >= 9
    ensures ReadPng(path, Header(ihdrLen, 0, 0, rest)) == Err(ZeroSize(path))
  {
    HeaderFields(ihdrLen, 0, 0, rest);
  }

  /** An IHDR chunk declaring fewer than 8 bytes is rejected before its
      width and height are looked at. */
  lemma RejectsShortIhdr(path: string, ihdrLen: nat, w: nat, h: nat, rest: seq<byte>)
    requires ihdrLen < 8 && w < Pow256(4) && h < Pow256(4)
    requires |rest| >= 9
    ensures ReadPng(path, Header(ihdrLen, w, h, rest)) == Err(BadIhdr(path))
  {
    HeaderFields(ihdrLen, w, h, rest);
  }
}
