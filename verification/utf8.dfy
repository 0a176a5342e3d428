/** UTF-8 decoding as MicroPython's `bytes.decode('utf-8')` and
    `str(b, enc)` perform it: the bytes are checked by the lax test of
    MicroPython's `utf8_check` and either decode completely or the call
    raises UnicodeError. The test looks only at the shape of each
    sequence: a lead byte below 0xF8 followed by the continuation bytes it
    announces. Overlong forms and F5-F7 lead bytes pass; the encoding
    argument is not looked at.
 */
module Utf8 {
  import opened Wrappers
  import opened PyText

  predicate IsAscii(b: byte) {
    b as int < 0x80
  }

  predicate AllAscii(s: Bytes) {
    forall i :: 0 <= i < |s| ==> IsAscii(s[i])
  }

  predicate InRange(b: byte, lo: int, hi: int) {
    lo <= b as int <= hi
  }

  predicate IsCont(b: byte) {
    InRange(b, 0x80, 0xBF)
  }

  /** How many continuation bytes a lead byte announces; None for a byte
      that cannot start a sequence (a continuation byte or 0xF8 and up). */
  function Continuations(b: byte): (r: Option<nat>)
    ensures r.Some? ==> r.value <= 3
    ensures r == Some(0) <==> IsAscii(b)
  {
    var n := b as int;
    if n < 0x80 then Some(0)
    else if n < 0xC0 then None
    else if n < 0xE0 then Some(1)
    else if n < 0xF0 then Some(2)
    else if n < 0xF8 then Some(3)
    else None
  }

  /** The value `utf8_get_char` reads: the payload bits of the lead byte,
      then six bits from each continuation byte. */
  function CodePoint(s: Bytes, n: nat): int
    requires 1 <= n <= 4 && n <= |s|
  {
    var lead := s[0] as int;
    if n == 1 then lead
    else if n == 2 then (lead - 0xC0) * 64 + (s[1] as int - 0x80)
    else if n == 3 then (lead - 0xE0) * 4096 + (s[1] as int - 0x80) * 64 + (s[2] as int - 0x80)
    else (lead - 0xF0) * 262144 + (s[1] as int - 0x80) * 4096
         + (s[2] as int - 0x80) * 64 + (s[3] as int - 0x80)
  }

  /** The character a value stands for. MicroPython keeps the bytes, so an
      encoded surrogate or a value above U+10FFFF is a string element
      there; a Dafny `char` cannot hold one, and U+FFFD stands in. */
  function CharOf(cp: int): char {
    if 0 <= cp < 0xD800 || 0xE000 <= cp < 0x110000 then cp as char else '\U{FFFD}'
  }

  /** Decodes the character at the front of `s`: the character and the
      number of bytes it used, or None when the lead byte cannot start a
      sequence or the continuation bytes it announces are not there. */
  function DecodeOne(s: Bytes): (r: Option<(char, nat)>)
    requires |s| > 0
    ensures r.Some? <==> Continuations(s[0]).Some? && |s| > Continuations(s[0]).value
                         && forall i :: 1 <= i <= Continuations(s[0]).value ==> IsCont(s[i])
    ensures r.Some? ==> r.value.1 == Continuations(s[0]).value + 1
    ensures r.Some? && IsAscii(s[0]) ==> r.value.0 == s[0]
  {
    match Continuations(s[0])
    case None => None
    case Some(k) =>
      if |s| > k && (forall i :: 1 <= i <= k ==> IsCont(s[i])) then
        Some((CharOf(CodePoint(s, k + 1)), k + 1))
      else None
  }

  /** `bytes.decode('utf-8')`: None where MicroPython raises UnicodeError. */
  function Decode(s: Bytes): (r: Option<string>)
    ensures r.Some? ==> |r.value| <= |s|
    ensures r.Some? && |s| > 0 ==> DecodeOne(s).Some? && |r.value| > 0 && r.value[0] == DecodeOne(s).value.0
    decreases |s|
  {
    if |s| == 0 then Some([])
    else
      match DecodeOne(s)
      case None => None
      case Some((c, n)) =>
        match Decode(s[n..])
        case None => None
        case Some(rest) => Some([c] + rest)
  }

  /** Decoding is by whole sequences: text that decodes, followed by text
      that decodes, decodes to the two strings one after the other. */
  lemma {:induction false} DecodeConcat(a: Bytes, b: Bytes)
    requires Decode(a).Some? && Decode(b).Some?
    ensures Decode(a + b) == Some(Decode(a).value + Decode(b).value)
    decreases |a|
  {
    if |a| == 0 {
      assert a + b == b;
      assert Decode(a).value + Decode(b).value == Decode(b).value;
    } else {
      var n := DecodeOne(a).value.1;
      DecodeStep(a);
      DecodeConcat(a[n..], b);
      ConcatStep(a, b);
    }
  }

  /** The step of the induction: the first character of `a` comes first,
      then what the rest of `a` followed by `b` decodes to. */
  lemma ConcatStep(a: Bytes, b: Bytes)
    requires |a| > 0 && Decode(a).Some? && Decode(b).Some?
    requires var n := DecodeOne(a).value.1;
             Decode(a[n..]).Some? && Decode(a[n..] + b) == Some(Decode(a[n..]).value + Decode(b).value)
    ensures Decode(a + b) == Some(Decode(a).value + Decode(b).value)
  {
    var c, n := DecodeOne(a).value.0, DecodeOne(a).value.1;
    var x, y := Decode(a[n..]).value, Decode(b).value;
    var ab := Decode(a + b);
    assert ab == Some([c] + (x + y)) by { PrefixStep(a, b, c, n); }
    assert Decode(a).value == [c] + x by { DecodeStep(a); }
    Associative([c], x, y);
  }

  lemma Associative(p: string, q: string, r: string)
    ensures p + (q + r) == (p + q) + r
  {
  }

  /** Decoding `a + b` starts with the first character of `a`, then goes
      on after it. */
  lemma PrefixStep(a: Bytes, b: Bytes, c: char, n: nat)
    requires |a| > 0 && DecodeOne(a) == Some((c, n))
    ensures Decode(a + b) == (if Decode(a[n..] + b).Some? then Some([c] + Decode(a[n..] + b).value) else None)
  {
    DecodeOnePrefix(a, b);
    DecodeStep(a + b);
    assert (a + b)[n..] == a[n..] + b;
  }

  /** One step of decoding: the first character, then the rest. */
  lemma DecodeStep(s: Bytes)
    requires |s| > 0 && DecodeOne(s).Some?
    ensures var c, n := DecodeOne(s).value.0, DecodeOne(s).value.1;
            Decode(s) == (if Decode(s[n..]).Some? then Some([c] + Decode(s[n..]).value) else None)
  {
  }

  /** The first character only reads the bytes it uses. */
  lemma DecodeOnePrefix(a: Bytes, b: Bytes)
    requires |a| > 0 && DecodeOne(a).Some?
    ensures DecodeOne(a + b) == DecodeOne(a)
  {
    var k := Continuations(a[0]).value;
    assert forall i :: 0 <= i <= k ==> (a + b)[i] == a[i];
    assert CodePoint(a + b, k + 1) == CodePoint(a, k + 1);
  }

  /** ASCII bytes decode to the same characters. */
  lemma {:induction false} DecodeAscii(s: Bytes)
    requires AllAscii(s)
    ensures Decode(s) == Some(s)
    decreases |s|
  {
    if |s| > 0 {
      assert IsAscii(s[0]);
      DecodeAscii(s[1..]);
      assert s == [s[0]] + s[1..];
    }
  }

  /** A single byte above 127 among ASCII bytes is never well-formed UTF-8:
      decoding raises. */
  lemma {:induction false} DecodeLoneHighByte(pre: Bytes, h: byte, post: Bytes)
    requires AllAscii(pre) && AllAscii(post) && !IsAscii(h)
    ensures Decode(pre + [h] + post) == None
    decreases |pre|
  {
    var s := pre + [h] + post;
    if |pre| == 0 {
      assert s == [h] + post;
      assert |s| == 1 || IsAscii(s[1]) by {
        if |post| > 0 {
          assert s[1] == post[0];
        }
      }
    } else {
      assert IsAscii(s[0]);
      assert s[1..] == pre[1..] + [h] + post;
      DecodeLoneHighByte(pre[1..], h, post);
    }
  }

  /** The overlong two-byte form of NUL passes MicroPython's check and
      reads as NUL; a strict decoder would raise. */
  lemma DecodeOverlong()
    ensures Decode(['\U{C0}', '\U{80}']) == Some(['\0'])
  {
    var s: Bytes := ['\U{C0}', '\U{80}'];
    assert Continuations(s[0]) == Some(1) && IsCont(s[1]);
    assert CodePoint(s, 2) == 0;
    assert DecodeOne(s) == Some(('\0', 2));
    assert Decode(s[2..]) == Some([]) by { assert s[2..] == []; }
    assert Decode(s) == Some(['\0'] + []);
    assert ['\0'] + [] == ['\0'];
    assert Decode(['\U{C0}', '\U{80}']) == Some(['\0']);
  }
}
