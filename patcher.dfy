/**
 * The demo patch of `upload_match`: bytes 16 to 275 of the decompressed demo
 * are overwritten with the branding text, ASCII-encoded and NUL-padded or cut
 * to 260 bytes.
 */
module DemoPatcher {
  import opened Wrappers

  newtype byte = b: int | 0 <= b < 256

  /** The header field the patch overwrites: `HeaderLength` bytes from `HeaderOffset`. */
  const HeaderOffset: nat := 16
  const HeaderLength: nat := 260

  /**
   * `str.encode('ascii')` raises on a non-ASCII hub name; the slice
   * assignment raises on a demo shorter than 276 bytes.
   */
  datatype PatchError = NotAscii | TooShort

  function BrandingText(hubName: string): string {
    "TF2PL.com " + hubName + ", powered by FACEIT.com"
  }

  predicate IsAscii(s: string) {
    forall i :: 0 <= i < |s| ==> s[i] as int < 128
  }

  /** `s.encode('ascii')`: one byte per character, or an error when a character is outside ASCII. */
  function EncodeAscii(s: string): (r: Result<seq<byte>, PatchError>)
    ensures r.Ok? <==> IsAscii(s)
    ensures r.Ok? ==> |r.value| == |s| && forall i :: 0 <= i < |s| ==> r.value[i] as int == s[i] as int
    ensures r.Err? ==> r.error == NotAscii
  {
    if IsAscii(s) then Ok(seq(|s|, i requires 0 <= i < |s| && IsAscii(s) => s[i] as int as byte))
    else Err(NotAscii)
  }

  lemma BrandingAscii(hubName: string)
    ensures IsAscii(BrandingText(hubName)) <==> IsAscii(hubName)
  {
    var text := BrandingText(hubName);
    var pre := "TF2PL.com ";
    assert forall i :: 0 <= i < |hubName| ==> text[|pre| + i] == hubName[i];
    if !IsAscii(hubName) {
      var i :| 0 <= i < |hubName| && hubName[i] as int >= 128;
      assert text[|pre| + i] as int >= 128;
    }
  }

  /** The 260 bytes written into the header: the encoded text with 260 NULs appended, cut to 260. */
  function BrandingField(hubName: string): (r: Result<seq<byte>, PatchError>)
    ensures r.Ok? <==> IsAscii(hubName)
    ensures r.Err? ==> r.error == NotAscii
    ensures r.Ok? ==> |r.value| == HeaderLength
    ensures r.Ok? ==> var text := BrandingText(hubName);
                      forall i :: 0 <= i < HeaderLength ==>
                        r.value[i] as int == if i < |text| then text[i] as int else 0
  {
    BrandingAscii(hubName);
    match EncodeAscii(BrandingText(hubName))
    case Err(e) => Err(e)
    case Ok(encoded) => Ok((encoded + seq(HeaderLength, _ => 0 as byte))[..HeaderLength])
  }

  /** The demo with the header field replaced and every other byte kept. */
  function Overwrite(demo: seq<byte>, field: seq<byte>): (r: seq<byte>)
    requires |field| == HeaderLength && HeaderOffset + HeaderLength <= |demo|
    ensures |r| == |demo|
    ensures forall i :: 0 <= i < |demo| ==>
              r[i] == if HeaderOffset <= i < HeaderOffset + HeaderLength then field[i - HeaderOffset]
                      else demo[i]
  {
    demo[..HeaderOffset] + field + demo[HeaderOffset + HeaderLength..]
  }

  /** The patch on values: the encoding is tried first, then the header slice assignment. */
  function PatchDemo(demo: seq<byte>, hubName: string): (r: Result<seq<byte>, PatchError>)
    ensures r.Ok? <==> IsAscii(hubName) && HeaderOffset + HeaderLength <= |demo|
    ensures r.Err? ==> r.error == if IsAscii(hubName) then TooShort else NotAscii
    ensures r.Ok? ==> |r.value| == |demo|
    ensures r.Ok? ==> forall i :: 0 <= i < |demo| && !(HeaderOffset <= i < HeaderOffset + HeaderLength) ==>
                        r.value[i] == demo[i]
    ensures r.Ok? ==> var text := BrandingText(hubName);
                      forall i :: 0 <= i < HeaderLength ==>
                        r.value[HeaderOffset + i] as int == if i < |text| then text[i] as int else 0
  {
    match BrandingField(hubName)
    case Err(e) => Err(e)
    case Ok(field) =>
      if |demo| < HeaderOffset + HeaderLength then Err(TooShort) else Ok(Overwrite(demo, field))
  }

  /** A branding text of 260 characters or more is cut to its first 260 bytes, without error. */
  lemma PatchTruncates(demo: seq<byte>, hubName: string)
    requires IsAscii(hubName) && HeaderOffset + HeaderLength <= |demo|
    requires HeaderLength <= |BrandingText(hubName)|
    ensures PatchDemo(demo, hubName).Ok?
    ensures PatchDemo(demo, hubName).value[HeaderOffset..HeaderOffset + HeaderLength]
            == EncodeAscii(BrandingText(hubName)).value[..HeaderLength]
  {
    var patched := PatchDemo(demo, hubName).value;
    var encoded := EncodeAscii(BrandingText(hubName)).value;
    BrandingAscii(hubName);
    assert forall i :: 0 <= i < HeaderLength ==> patched[HeaderOffset + i] == encoded[i];
  }

  /**
   * `patched.getbuffer()[16:276] = ...` on the demo held in `buf`: on success
   * `buf` holds the patched demo, and on failure it is left as it was.
   */
  method PatchHeader(buf: array<byte>, hubName: string) returns (r: Outcome<PatchError>)
    modifies buf
    ensures r == (match PatchDemo(old(buf[..]), hubName) case Ok(_) => Pass case Err(e) => Fail(e))
    ensures r.Pass? ==> buf[..] == PatchDemo(old(buf[..]), hubName).value
    ensures r.Fail? ==> buf[..] == old(buf[..])
  {
    var field := BrandingField(hubName);
    if field.Err? {
      return Fail(field.error);
    }
    if buf.Length < HeaderOffset + HeaderLength {
      return Fail(TooShort);
    }
    var bytes := field.value;
    forall i | HeaderOffset <= i < HeaderOffset + HeaderLength {
      buf[i] := bytes[i - HeaderOffset];
    }
    r := Pass;
  }
}
