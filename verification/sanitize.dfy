/** The drivers' `_convert_to_string`: turn a line read from the modem into
    text without ever failing. Bytes that pass MicroPython's UTF-8 check are
    decoded; otherwise every byte above 127 is replaced by `#` and the (now
    ASCII) bytes are taken as they are. Either way the text is stripped of
    surrounding white space.
 */
module Sanitize {
  import opened Wrappers
  import opened PyText
  import opened Utf8

  /** The `bytearray` copy of `buf` with each byte above 127 set to `#`. */
  function MaskHighBytes(buf: Bytes): (r: Bytes)
    ensures |r| == |buf|
    ensures forall i :: 0 <= i < |buf| ==> r[i] == if IsAscii(buf[i]) then buf[i] else '#'
    ensures AllAscii(r)
  {
    seq(|buf|, i requires 0 <= i < |buf| => if IsAscii(buf[i]) then buf[i] else '#')
  }

  /** `_convert_to_string(buf)`. It is total: there is no input on which it
      raises, and when the UTF-8 check fails the result is the masked bytes
      read as text. */
  function ConvertToString(buf: Bytes): (r: string)
    ensures Decode(buf).Some? ==> r == StripStr(Decode(buf).value)
    ensures Decode(buf).None? ==> r == StripStr(MaskHighBytes(buf))
  {
    match Decode(buf)
    case Some(t) => StripStr(t)
    case None =>
      var m := MaskHighBytes(buf);
      DecodeAscii(m);
      StripStr(Decode(m).value)
  }

  /** An ASCII line is only stripped. */
  lemma ConvertAscii(buf: Bytes)
    requires AllAscii(buf)
    ensures ConvertToString(buf) == StripStr(buf)
  {
    DecodeAscii(buf);
  }

  /** A line with one byte above 127 among ASCII bytes comes back with that
      byte replaced by `#`, everything else unchanged. */
  lemma ConvertOneHighByte(pre: Bytes, h: byte, post: Bytes)
    requires AllAscii(pre) && AllAscii(post) && !IsAscii(h)
    ensures ConvertToString(pre + [h] + post) == StripStr(pre + "#" + post)
  {
    var buf := pre + [h] + post;
    DecodeLoneHighByte(pre, h, post);
    var m := MaskHighBytes(buf);
    assert m == pre + "#" + post by {
      forall i | 0 <= i < |buf|
        ensures m[i] == (pre + "#" + post)[i]
      {
        if i < |pre| {
          assert buf[i] == pre[i];
        } else if i > |pre| {
          assert buf[i] == post[i - |pre| - 1];
        }
      }
    }
  }

  /** A line holding only white space comes back empty. */
  lemma ConvertBlank(buf: Bytes)
    requires AllAscii(buf) && forall i :: 0 <= i < |buf| ==> IsStrSpace(buf[i])
    ensures ConvertToString(buf) == ""
  {
    ConvertAscii(buf);
    StripAllSpace(buf, IsStrSpace);
  }

  /** The overlong NUL is decoded, not masked: no `#` appears. */
  lemma ConvertOverlong()
    ensures ConvertToString(['\U{C0}', '\U{80}']) == ['\0']
  {
    DecodeOverlong();
    assert StripStr(['\0']) == ['\0'] by { StripNoSpaceEnds(['\0'], IsStrSpace); }
  }
}
