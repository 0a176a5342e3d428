/** The Python string and bytes operations the drivers rely on:
    `strip`, `split`, `find`, `in`, `replace`, slicing, `int()` and the
    hexadecimal / decimal renderings used when building commands.

    A byte is the Latin-1 character of the same value, so `bytes` and `str`
    values are both sequences of characters and share one definition of
    each operation. The semantics are MicroPython's: there `strip()` and
    `int()` treat the same six ASCII characters as white space for `str`
    and for `bytes`. The byte type is a plain name for `char`: no
    operation here depends on a byte being below 256, and keeping one
    element type lets every fact about `str` apply to `bytes` unchanged.
 */
module PyText {
  import opened Wrappers

  type byte = char
  type Bytes = seq<byte>

  /** Which Python type a text value has. On MicroPython both see the same
      white space; the flavour names the method being modelled. */
  datatype Flavour = BytesText | StrText

  /** `bytes.isspace()` for one byte: space, tab, LF, VT, FF, CR. */
  predicate IsByteSpace(c: char) {
    var n := c as int;
    n == 32 || 9 <= n <= 13
  }

  /** The white space of MicroPython's `str.strip()` and `int()`: the
      same six ASCII characters as for `bytes`; the separators 0x1C-0x1F,
      U+00A0 and the other Unicode spaces are kept. */
  predicate IsStrSpace(c: char) {
    IsByteSpace(c)
  }

  predicate IsSpace(c: char, f: Flavour) {
    match f
    case BytesText => IsByteSpace(c)
    case StrText => IsStrSpace(c)
  }

  // ---------------------------------------------------------------------
  // strip()

  function TrimStart<T>(s: seq<T>, sp: T -> bool): (r: seq<T>)
    ensures |r| <= |s| && r == s[|s| - |r|..]
    ensures forall i :: 0 <= i < |s| - |r| ==> sp(s[i])
    ensures |r| > 0 ==> !sp(r[0])
    decreases |s|
  {
    if |s| > 0 && sp(s[0]) then TrimStart(s[1..], sp) else s
  }

  function TrimEnd<T>(s: seq<T>, sp: T -> bool): (r: seq<T>)
    ensures |r| <= |s| && r == s[..|r|]
    ensures forall i :: |r| <= i < |s| ==> sp(s[i])
    ensures |r| > 0 ==> !sp(r[|r| - 1])
    decreases |s|
  {
    if |s| > 0 && sp(s[|s| - 1]) then TrimEnd(s[..|s| - 1], sp) else s
  }

  /** Python's `strip()` with no argument: the longest infix whose first and
      last characters are not white space. */
  function Strip<T>(s: seq<T>, sp: T -> bool): (r: seq<T>)
    ensures |r| <= |s|
    ensures |r| > 0 ==> !sp(r[0]) && !sp(r[|r| - 1])
  {
    var t := TrimStart(s, sp);
    var r := TrimEnd(t, sp);
    assert |r| > 0 ==> r[0] == t[0];
    r
  }

  /** Neither end of `s` is white space: `s` is its own strip. */
  predicate Trimmed<T>(s: seq<T>, sp: T -> bool) {
    |s| > 0 ==> !sp(s[0]) && !sp(s[|s| - 1])
  }

  function StripBytes(s: Bytes): (r: Bytes)
    ensures |r| <= |s| && Trimmed(r, IsByteSpace)
  {
    Strip(s, IsByteSpace)
  }

  function StripStr(s: string): (r: string)
    ensures |r| <= |s| && Trimmed(r, IsStrSpace)
  {
    Strip(s, IsStrSpace)
  }

  function StripAs(s: string, f: Flavour): string {
    match f
    case BytesText => Strip(s, IsByteSpace)
    case StrText => Strip(s, IsStrSpace)
  }

  /** White space in front of a text does not survive `strip()`, and a text
      with non-space ends is its own strip. */
  lemma StripAsPadded(pad: string, s: string, f: Flavour)
    requires forall i :: 0 <= i < |pad| ==> IsSpace(pad[i], f)
    requires |s| > 0 ==> !IsSpace(s[0], f) && !IsSpace(s[|s| - 1], f)
    ensures StripAs(pad + s, f) == s
  {
    match f
    case BytesText =>
      StripPadding(pad, s, IsByteSpace);
      StripNoSpaceEnds(s, IsByteSpace);
    case StrText =>
      StripPadding(pad, s, IsStrSpace);
      StripNoSpaceEnds(s, IsStrSpace);
  }

  /** Stripping a text whose ends are not white space leaves it unchanged. */
  lemma StripNoSpaceEnds<T>(s: seq<T>, sp: T -> bool)
    requires |s| > 0 ==> !sp(s[0]) && !sp(s[|s| - 1])
    ensures Strip(s, sp) == s
  {
  }

  /** A text with white space on both sides strips to itself when its
      own ends are not white space. */
  lemma StripPadded<T>(w: T, s: seq<T>, sp: T -> bool)
    requires sp(w) && Trimmed(s, sp)
    ensures Strip([w] + s + [w], sp) == s
  {
    assert [w] + s + [w] == [w] + (s + [w]);
    StripDropsLeadingSpace(w, s + [w], sp);
    StripDropsTrailingSpace(s, w, sp);
    StripNoSpaceEnds(s, sp);
  }

  /** A text of white space only strips to nothing. */
  lemma StripAllSpace<T>(s: seq<T>, sp: T -> bool)
    requires forall i :: 0 <= i < |s| ==> sp(s[i])
    ensures Strip(s, sp) == []
  {
  }

  /** Stripping only removes characters. */
  lemma StripAbsent<T>(s: seq<T>, c: T, sp: T -> bool)
    requires c !in s
    ensures c !in Strip(s, sp)
  {
    var t := TrimStart(s, sp);
    var r := TrimEnd(t, sp);
    assert forall i :: 0 <= i < |r| ==> r[i] == t[i] == s[|s| - |t| + i];
  }

  /** Leading white space never survives a strip. */
  lemma StripDropsLeadingSpace<T>(w: T, s: seq<T>, sp: T -> bool)
    requires sp(w)
    ensures Strip([w] + s, sp) == Strip(s, sp)
  {
    assert ([w] + s)[1..] == s;
  }

  /** Trailing white space never survives a strip. */
  lemma StripDropsTrailingSpace<T>(s: seq<T>, w: T, sp: T -> bool)
    requires sp(w)
    ensures Strip(s + [w], sp) == Strip(s, sp)
  {
    var t := TrimStart(s, sp);
    if |t| == 0 {
      assert TrimStart(s + [w], sp) == [] by {
        TrimStartAppendSpace(s, w, sp);
      }
    } else {
      TrimStartAppendText(s, [w], sp);
      assert TrimStart(s + [w], sp) == t + [w];
      assert (t + [w])[..|t + [w]| - 1] == t;
    }
  }

  lemma {:induction false} TrimStartAppendSpace<T>(s: seq<T>, w: T, sp: T -> bool)
    requires sp(w) && TrimStart(s, sp) == []
    ensures TrimStart(s + [w], sp) == []
    decreases |s|
  {
    if |s| == 0 {
      assert TrimStart([w], sp) == TrimStart([w][1..], sp);
    } else {
      assert (s + [w])[1..] == s[1..] + [w];
      TrimStartAppendSpace(s[1..], w, sp);
    }
  }

  lemma {:induction false} TrimStartAppendText<T>(s: seq<T>, u: seq<T>, sp: T -> bool)
    requires |TrimStart(s, sp)| > 0
    ensures TrimStart(s + u, sp) == TrimStart(s, sp) + u
    decreases |s|
  {
    if sp(s[0]) {
      assert (s + u)[1..] == s[1..] + u;
      TrimStartAppendText(s[1..], u, sp);
    }
  }

  // ---------------------------------------------------------------------
  // find() and `in`

  /** The index of the first `x` in `s`, or -1. */
  function IndexOf<T(==)>(s: seq<T>, x: T): (r: int)
    ensures -1 <= r < |s|
    ensures r >= 0 ==> s[r] == x && x !in s[..r]
    ensures r < 0 <==> x !in s
    decreases |s|
  {
    if |s| == 0 then -1
    else if s[0] == x then 0
    else
      var k := IndexOf(s[1..], x);
      if k < 0 then -1
      else
        assert s[..k + 1] == [s[0]] + s[1..][..k];
        1 + k
  }

  /** Python's `s.find(x, start)` for a one-element needle: a negative start
      counts from the end, and the search covers `s[start:]`. */
  function Find<T(==)>(s: seq<T>, x: T, start: int): (r: int)
    ensures -1 <= r < |s|
  {
    FindFrom(s, x, FindStart(s, start))
  }

  /** The first `x` at index `i` or later, or -1. */
  function FindFrom<T(==)>(s: seq<T>, x: T, i: nat): (r: int)
    ensures -1 <= r < |s|
    ensures r >= 0 ==> i <= r
    decreases |s| - i
  {
    if i >= |s| then -1 else if s[i] == x then i else FindFrom(s, x, i + 1)
  }

  /** Find's meaning: the first `x` at or after the start, or -1 when
      there is none there. */
  lemma FindSpec<T>(s: seq<T>, x: T, start: int)
    ensures var r := Find(s, x, start);
            r >= 0 ==> s[r] == x && FindStart(s, start) <= r
    ensures var r := Find(s, x, start);
            r >= 0 ==> forall j :: FindStart(s, start) <= j < r ==> s[j] != x
    ensures var r := Find(s, x, start);
            r < 0 ==> forall j :: FindStart(s, start) <= j < |s| ==> s[j] != x
  {
    FindFromSpec(s, x, FindStart(s, start));
  }

  lemma {:induction false} FindFromSpec<T>(s: seq<T>, x: T, i: nat)
    ensures var r := FindFrom(s, x, i);
            r >= 0 ==> s[r] == x && forall j :: i <= j < r ==> s[j] != x
    ensures var r := FindFrom(s, x, i);
            r < 0 ==> forall j :: i <= j < |s| ==> s[j] != x
    decreases |s| - i
  {
    if i < |s| && s[i] != x {
      FindFromSpec(s, x, i + 1);
    }
  }

  /** `s.find(x, start)` is the first `x` at or after where the search starts. */
  lemma FindIs<T>(s: seq<T>, x: T, start: int, k: int)
    requires FindStart(s, start) <= k < |s| && s[k] == x
    requires forall j :: FindStart(s, start) <= j < k ==> s[j] != x
    ensures Find(s, x, start) == k
  {
    FindSpec(s, x, start);
  }

  /** Searching from the end of `pre` finds the `x` that follows `mid`
      when `mid` holds no `x`. */
  lemma FindAfter<T>(pre: seq<T>, mid: seq<T>, x: T, post: seq<T>)
    requires x !in mid
    ensures Find(pre + mid + [x] + post, x, |pre|) == |pre| + |mid|
  {
    var s := pre + mid + [x] + post;
    assert forall j :: |pre| <= j < |pre| + |mid| ==> s[j] == mid[j - |pre|];
    FindIs(s, x, |pre|, |pre| + |mid|);
  }

  /** Where `s.find(_, start)` begins to look. */
  function FindStart<T>(s: seq<T>, start: int): nat {
    if start >= 0 then start
    else if start + |s| >= 0 then start + |s|
    else 0
  }

  /** `pat` occurs in `s` starting at index `i`. */
  predicate OccursAt<T(==)>(s: seq<T>, pat: seq<T>, i: int) {
    0 <= i && i + |pat| <= |s| && s[i..i + |pat|] == pat
  }

  /** Python's `pat in s` for strings and bytes (a substring test). */
  function Contains<T(==)>(s: seq<T>, pat: seq<T>): (r: bool)
    ensures r <==> exists i :: OccursAt(s, pat, i)
    decreases |s|
  {
    if |pat| > |s| then false
    else if s[..|pat|] == pat then
      assert OccursAt(s, pat, 0);
      true
    else if |s| == 0 then false
    else
      var r := Contains(s[1..], pat);
      assert forall i :: OccursAt(s[1..], pat, i) ==> OccursAt(s, pat, i + 1);
      assert forall i :: OccursAt(s, pat, i) && i > 0 ==> OccursAt(s[1..], pat, i - 1);
      r
  }

  /** A text contains every one of its own infixes. */
  lemma ContainsInfix<T>(a: seq<T>, pat: seq<T>, b: seq<T>)
    ensures Contains(a + pat + b, pat)
  {
    assert OccursAt(a + pat + b, pat, |a|);
  }

  /** Every text contains itself. */
  lemma ContainsSelf<T>(s: seq<T>)
    ensures Contains(s, s)
  {
    assert OccursAt(s, s, 0);
  }

  // ---------------------------------------------------------------------
  // split() and join()

  /** Python's `sep.join(parts)` for a one-element separator. */
  function Join<T>(parts: seq<seq<T>>, sep: T): seq<T> {
    if |parts| == 0 then []
    else if |parts| == 1 then parts[0]
    else parts[0] + [sep] + Join(parts[1..], sep)
  }

  /** Python's `s.split(sep)` for a one-element separator. */
  function Split<T(==)>(s: seq<T>, sep: T): (r: seq<seq<T>>)
    ensures |r| >= 1
    decreases |s|
  {
    var k := IndexOf(s, sep);
    if k < 0 then [s] else [s[..k]] + Split(s[k + 1..], sep)
  }

  /** Split's partner: no field holds the separator, and joining the
      fields back with it gives the original text. */
  lemma {:induction false} SplitJoin<T>(s: seq<T>, sep: T)
    ensures forall i :: 0 <= i < |Split(s, sep)| ==> sep !in Split(s, sep)[i]
    ensures Join(Split(s, sep), sep) == s
    decreases |s|
  {
    var k := IndexOf(s, sep);
    if k >= 0 {
      var rest := Split(s[k + 1..], sep);
      SplitJoin(s[k + 1..], sep);
      var r := [s[..k]] + rest;
      assert r[1..] == rest;
      assert s == s[..k] + [sep] + s[k + 1..];
    }
  }

  /** Join's partner: separator-free fields joined by the separator split
      back into the same fields. */
  lemma {:induction false} JoinSplit<T>(fields: seq<seq<T>>, sep: T)
    requires |fields| >= 1
    requires forall i :: 0 <= i < |fields| ==> sep !in fields[i]
    ensures Split(Join(fields, sep), sep) == fields
    decreases |fields|
  {
    if |fields| == 1 {
      SplitWhole(fields[0], sep);
    } else {
      var tail := fields[1..];
      assert forall i :: 0 <= i < |tail| ==> tail[i] == fields[i + 1];
      JoinSplit(tail, sep);
      SplitField(fields[0], sep, Join(tail, sep));
      assert fields == [fields[0]] + tail;
    }
  }

  /** Splitting a text that starts with a separator-free field. */
  lemma SplitField<T>(a: seq<T>, sep: T, b: seq<T>)
    requires sep !in a
    ensures Split(a + [sep] + b, sep) == [a] + Split(b, sep)
  {
    var s := a + [sep] + b;
    assert s[..|a|] == a;
    assert s[|a| + 1..] == b;
    IndexOfFirst(a, sep, b);
  }

  /** The first separator of `a + [sep] + b` is the one after `a`. */
  lemma IndexOfFirst<T>(a: seq<T>, sep: T, b: seq<T>)
    requires sep !in a
    ensures IndexOf(a + [sep] + b, sep) == |a|
  {
    var s := a + [sep] + b;
    assert s[|a|] == sep;
    assert forall i :: 0 <= i < |a| ==> s[i] == a[i];
    assert forall k :: |a| < k <= |s| ==> s[..k][|a|] == sep;
  }

  /** The first field of `a + rest` is `a` when `rest` is empty or
      starts with the separator. */
  lemma FirstField<T>(a: seq<T>, sep: T, rest: seq<T>)
    requires sep !in a
    requires |rest| == 0 || rest[0] == sep
    ensures Split(a + rest, sep)[0] == a
  {
    if |rest| == 0 {
      assert a + rest == a;
      SplitWhole(a, sep);
    } else {
      assert a + rest == a + [sep] + rest[1..];
      SplitField(a, sep, rest[1..]);
    }
  }

  /** The first two fields of `a + [sep] + b + rest`, when `rest` is empty
      or starts with the separator. */
  lemma SecondField<T>(a: seq<T>, sep: T, b: seq<T>, rest: seq<T>)
    requires sep !in a && sep !in b
    requires |rest| == 0 || rest[0] == sep
    ensures |Split(a + [sep] + b + rest, sep)| >= 2
    ensures Split(a + [sep] + b + rest, sep)[0] == a
    ensures Split(a + [sep] + b + rest, sep)[1] == b
  {
    var s := a + [sep] + b + rest;
    assert s == a + [sep] + (b + rest);
    SplitField(a, sep, b + rest);
    FirstField(b, sep, rest);
    var t := Split(b + rest, sep);
    assert Split(s, sep) == [a] + t;
  }

  /** The third field of `a + [sep] + b + [sep] + c + rest`, when `rest`
      is empty or starts with the separator. */
  lemma ThirdField<T>(a: seq<T>, sep: T, b: seq<T>, c: seq<T>, rest: seq<T>)
    requires sep !in a && sep !in b && sep !in c
    requires |rest| == 0 || rest[0] == sep
    ensures |Split(a + [sep] + b + [sep] + c + rest, sep)| >= 3
    ensures Split(a + [sep] + b + [sep] + c + rest, sep)[0] == a
    ensures Split(a + [sep] + b + [sep] + c + rest, sep)[2] == c
  {
    assert a + [sep] + b + [sep] + c + rest == a + [sep] + (b + [sep] + c + rest);
    SplitField(a, sep, b + [sep] + c + rest);
    SecondField(b, sep, c, rest);
  }

  /** A text without the separator is a single field. */
  lemma SplitWhole<T>(a: seq<T>, sep: T)
    requires sep !in a
    ensures Split(a, sep) == [a]
  {
  }

  /** Python's `s.split(sep, 2)` unpacked into exactly three names: fails
      with ValueError when `s` holds fewer than two separators. */
  function SplitThree<T(==)>(s: seq<T>, sep: T): (r: Result<(seq<T>, seq<T>, seq<T>)>)
    ensures r.Ok? ==> r.value.0 + [sep] + r.value.1 + [sep] + r.value.2 == s
    ensures r.Ok? ==> sep !in r.value.0 && sep !in r.value.1
    ensures r.Err? ==> r.error == ValueError
    ensures r.Err? ==> forall i, j :: 0 <= i < j < |s| && s[i] == sep ==> s[j] != sep
  {
    var k1 := IndexOf(s, sep);
    if k1 < 0 then
      Err(ValueError)
    else
      var tail := s[k1 + 1..];
      var k2 := IndexOf(tail, sep);
      if k2 < 0 then
        OneSeparator(s, sep, k1);
        Err(ValueError)
      else
        ThreeFields(s, sep, k1, k2);
        Ok((s[..k1], tail[..k2], tail[k2 + 1..]))
  }

  /** SplitThree's partner: three fields joined by the separator, the
      first two without it, come back apart. */
  lemma SplitThreeOf<T>(a: seq<T>, b: seq<T>, c: seq<T>, sep: T)
    requires sep !in a && sep !in b
    ensures SplitThree(a + [sep] + b + [sep] + c, sep) == Ok((a, b, c))
  {
    var s := a + [sep] + b + [sep] + c;
    assert s == a + [sep] + (b + [sep] + c);
    IndexOfFirst(a, sep, b + [sep] + c);
    assert s[|a| + 1..] == b + [sep] + c;
    IndexOfFirst(b, sep, c);
    assert s[..|a|] == a;
    assert (b + [sep] + c)[..|b|] == b && (b + [sep] + c)[|b| + 1..] == c;
  }

  // ---------------------------------------------------------------------
  // replace() and slicing

  lemma ThreeFields<T>(s: seq<T>, sep: T, k1: nat, k2: nat)
    requires k1 < |s| && s[k1] == sep
    requires k2 < |s| - k1 - 1 && s[k1 + 1..][k2] == sep
    ensures s[..k1] + [sep] + s[k1 + 1..][..k2] + [sep] + s[k1 + 1..][k2 + 1..] == s
  {
    var tail := s[k1 + 1..];
    assert tail == tail[..k2] + [sep] + tail[k2 + 1..];
    assert s == s[..k1] + [sep] + tail;
  }

  lemma OneSeparator<T>(s: seq<T>, sep: T, k: int)
    requires 0 <= k < |s| && sep !in s[..k] && sep !in s[k + 1..]
    ensures forall i, j :: 0 <= i < j < |s| && s[i] == sep ==> s[j] != sep
  {
    forall i | 0 <= i < |s| && i != k
      ensures s[i] != sep
    {
      if i < k {
        assert s[..k][i] == s[i];
      } else {
        assert s[k + 1..][i - k - 1] == s[i];
      }
    }
  }

  /** Python's `s.replace(a, b)` for one-element `a` and `b`. */
  function Replace<T(==)>(s: seq<T>, a: T, b: T): (r: seq<T>)
    ensures |r| == |s|
    ensures forall i :: 0 <= i < |s| ==> r[i] == (if s[i] == a then b else s[i])
  {
    seq(|s|, i requires 0 <= i < |s| => if s[i] == a then b else s[i])
  }

  /** Replacing one element by another keeps out every third element. */
  lemma ReplaceAbsent<T>(s: seq<T>, a: T, b: T, c: T)
    requires c !in s && c != b
    ensures c !in Replace(s, a, b)
  {
  }

  /** Python's `s[lo:hi]` for non-negative bounds: out-of-range bounds are
      clamped and a reversed range is empty. */
  function Slice<T>(s: seq<T>, lo: nat, hi: nat): (r: seq<T>)
    ensures |r| == if lo < hi && lo < |s| then Min(hi, |s|) - lo else 0
    ensures forall i :: 0 <= i < |r| ==> r[i] == s[lo + i]
  {
    var h := Min(hi, |s|);
    if lo < h then s[lo..h] else []
  }

  /** The slice covering exactly the middle part. */
  lemma SliceMid<T>(pre: seq<T>, mid: seq<T>, post: seq<T>)
    ensures Slice(pre + mid + post, |pre|, |pre| + |mid|) == mid
  {
    var s := pre + mid + post;
    if |mid| > 0 {
      assert s[|pre|..|pre| + |mid|] == mid;
    }
  }

  function Min(a: int, b: int): int {
    if a <= b then a else b
  }

  function Max(a: int, b: int): int {
    if a >= b then a else b
  }

  /** `s[0:n]`. */
  function Prefix<T>(s: seq<T>, n: nat): seq<T> {
    Slice(s, 0, n)
  }

  // ---------------------------------------------------------------------
  // lower() and upper() on ASCII text

  function LowerChar(c: char): char {
    if 'A' <= c <= 'Z' then (c as int + 32) as char else c
  }

  function UpperChar(c: char): char {
    if 'a' <= c <= 'z' then (c as int - 32) as char else c
  }

  /** `s.lower()` for text whose letters are ASCII. */
  function Lower(s: string): (r: string)
    ensures |r| == |s| && forall i :: 0 <= i < |s| ==> r[i] == LowerChar(s[i])
  {
    seq(|s|, i requires 0 <= i < |s| => LowerChar(s[i]))
  }

  /** `s.upper()` for text whose letters are ASCII. */
  function Upper(s: string): (r: string)
    ensures |r| == |s| && forall i :: 0 <= i < |s| ==> r[i] == UpperChar(s[i])
  {
    seq(|s|, i requires 0 <= i < |s| => UpperChar(s[i]))
  }

  // ---------------------------------------------------------------------
  // int()

  /** The value of one digit character in any base up to 36: `0-9`, then
      the letters of either case from 10 upwards; -1 for anything else. */
  function DigitValue(c: char): int {
    if '0' <= c <= '9' then c as int - '0' as int
    else if 'a' <= c <= 'z' then c as int - 'a' as int + 10
    else if 'A' <= c <= 'Z' then c as int - 'A' as int + 10
    else -1
  }

  predicate IsDigitIn(c: char, base: nat) {
    0 <= DigitValue(c) < base
  }

  /** A character of a numeral's digit run: a digit of the base, or `_`,
      which MicroPython's parser passes over wherever it appears. */
  predicate IsNumeralChar(c: char, base: nat) {
    IsDigitIn(c, base) || c == '_'
  }

  /** The value of a run of digits, most significant first. */
  function DigitsValue(u: string, base: nat): (r: nat)
    requires forall i :: 0 <= i < |u| ==> IsDigitIn(u[i], base)
    decreases |u|
  {
    if |u| == 0 then 0
    else
      var last := u[|u| - 1];
      assert IsDigitIn(last, base);
      var init := u[..|u| - 1];
      assert forall i :: 0 <= i < |init| ==> init[i] == u[i];
      var v := DigitsValue(init, base);
      assert v * base >= 0 by { NonNegProduct(v, base); }
      v * base + DigitValue(last)
  }

  /** The digits of a numeral with its underscores passed over, as
      MicroPython's parser does wherever they appear. */
  function Unscored(d: string, base: nat): (r: string)
    requires forall i :: 0 <= i < |d| ==> IsNumeralChar(d[i], base)
    ensures |r| <= |d| && forall i :: 0 <= i < |r| ==> IsDigitIn(r[i], base)
    decreases |d|
  {
    if |d| == 0 then []
    else
      assert IsNumeralChar(d[0], base);
      (if d[0] == '_' then [] else [d[0]]) + Unscored(d[1..], base)
  }

  lemma NonNegProduct(a: nat, b: nat)
    ensures a * b >= 0
  {
  }

  /** The bases `int()` is called with: 0 for one-argument `int(s)`, 16
      for `int(s, 16)`, and 10 for the exponent of a float. */
  predicate KnownBase(base: nat) {
    base == 0 || base == 10 || base == 16
  }

  /** MicroPython's base prefix, read after the sign: in base 0 a `0x`,
      `0o` or `0b` of either case selects base 16, 8 or 2, and anything
      else base 10 with nothing skipped; in base 16 a `0x` is skipped.
      The base in effect and the text of the digits. */
  function BasePrefix(u: string, base: nat): (r: (nat, string))
    requires KnownBase(base)
    ensures r.0 in {2, 8, 10, 16} && (base != 0 ==> r.0 == base)
    ensures r.1 == u || (|u| >= 2 && u[0] == '0' && r.1 == u[2..])
  {
    var tag := if |u| >= 2 && u[0] == '0' then LowerChar(u[1]) else ' ';
    if (base == 0 || base == 16) && tag == 'x' then (16, u[2..])
    else if base == 0 && tag == 'o' then (8, u[2..])
    else if base == 0 && tag == 'b' then (2, u[2..])
    else if base == 0 then (10, u)
    else (base, u)
  }

  /** Python's `int(s, base)` on `str` or `bytes`: white space around the
      numeral is ignored, one sign is allowed, then the base prefix and
      the digits; anything else is a ValueError (None). */
  function ParseInt(s: string, base: nat, f: Flavour): (r: Option<int>)
    requires KnownBase(base)
  {
    ParseNumeral(StripAs(s, f), base)
  }

  /** A numeral without surrounding white space: sign, base prefix, then
      a non-empty run of digits and underscores. */
  function ParseNumeral(t: string, base: nat): Option<int>
    requires KnownBase(base)
  {
    var sign := SignOf(t);
    var prefix := BasePrefix(sign.1, base);
    match ParseDigits(prefix.1, prefix.0)
    case None => None
    case Some(v) => Some(Signed(sign.0, v))
  }

  /** The optional sign of a numeral, as "is negative", and the text after
      it. */
  function SignOf(t: string): (r: (bool, string))
    ensures r.1 == t || (|t| > 0 && r.1 == t[1..])
    ensures r.0 ==> |t| > 0 && t[0] == '-'
  {
    if |t| > 0 && (t[0] == '-' || t[0] == '+') then (t[0] == '-', t[1..]) else (false, t)
  }

  /** The value `v` carries when a minus sign was read in front of it. */
  function Signed(neg: bool, v: int): int {
    if neg then -v else v
  }

  function ParseDigits(d: string, base: nat): Option<nat> {
    if |d| == 0 || exists i :: 0 <= i < |d| && !IsNumeralChar(d[i], base) then None
    else Some(DigitsValue(Unscored(d, base), base))
  }

  /** `int(s)` on text: base 0, so the base prefixes are read. Only
      ValueError is raised, blank text is one, and a numeral starts with
      a sign, a decimal digit or an underscore. */
  function Int(s: string, f: Flavour): (r: Result<int>)
    ensures r.Err? ==> r.error == ValueError
    ensures StripAs(s, f) == [] ==> r.Err?
    ensures r.Ok? ==> var t := StripAs(s, f);
                      |t| > 0 && (IsDigitIn(t[0], 10) || t[0] in "+-_")
  {
    var t := StripAs(s, f);
    assert |t| > 0 && !(IsDigitIn(t[0], 10) || t[0] in "+-_") ==> ParseNumeral(t, 0).None? by {
      if |t| > 0 && !(IsDigitIn(t[0], 10) || t[0] in "+-_") {
        assert BasePrefix(t, 0) == (10, t);
        assert !IsNumeralChar(t[0], 10);
      }
    }
    Need(ParseInt(s, 0, f), ValueError)
  }

  /** A word that starts with neither a sign, a digit nor an underscore is
      no integer. */
  lemma WordNotInt(s: string)
    requires |s| > 0 && !IsStrSpace(s[0]) && !IsStrSpace(s[|s| - 1])
    requires !IsDigitIn(s[0], 10) && s[0] != '-' && s[0] != '+' && s[0] != '_'
    ensures Int(s, StrText).Err?
  {
    StripNoSpaceEnds(s, IsStrSpace);
  }

  /** Text without white space at either end goes to the numeral parser
      as it is. */
  lemma IntOfTrimmed(t: string, base: nat)
    requires KnownBase(base) && |t| > 0 && !IsStrSpace(t[0]) && !IsStrSpace(t[|t| - 1])
    ensures ParseInt(t, base, StrText) == ParseNumeral(t, base)
  {
    StripNoSpaceEnds(t, IsStrSpace);
  }

  /** A non-empty run of digits and underscores is read as its value. */
  lemma DigitRun(d: string, base: nat)
    requires |d| > 0 && forall i :: 0 <= i < |d| ==> IsNumeralChar(d[i], base)
    ensures ParseDigits(d, base) == Some(DigitsValue(Unscored(d, base), base))
  {
  }

  /** `int(s)` of a prefixed numeral: the sign, then the prefix selects the
      base of the digits that follow it. */
  lemma IntPrefixed(sign: string, tag: char, d: string, base: nat)
    requires sign == "" || sign == "-"
    requires base == (match LowerChar(tag) case 'x' => 16 case 'o' => 8 case 'b' => 2 case _ => 0) && base > 0
    requires |d| > 0 && forall i :: 0 <= i < |d| ==> IsDigitIn(d[i], base)
    ensures Int(sign + ['0', tag] + d, StrText) == Ok(Signed(sign == "-", DigitsValue(d, base)))
  {
    var t := sign + ['0', tag] + d;
    assert t[0] in "-0" && IsDigitIn(t[|t| - 1], base);
    IntOfTrimmed(t, 0);
    PrefixedNumeral(sign, tag, d, base);
  }

  lemma PrefixedNumeral(sign: string, tag: char, d: string, base: nat)
    requires sign == "" || sign == "-"
    requires base == (match LowerChar(tag) case 'x' => 16 case 'o' => 8 case 'b' => 2 case _ => 0) && base > 0
    requires |d| > 0 && forall i :: 0 <= i < |d| ==> IsDigitIn(d[i], base)
    ensures ParseNumeral(sign + ['0', tag] + d, 0) == Some(Signed(sign == "-", DigitsValue(d, base)))
  {
    var u := ['0', tag] + d;
    assert sign + ['0', tag] + d == sign + u;
    SignedText(sign, u);
    PrefixTag(tag, d, base);
    DigitsOnly(d, base);
    NumeralOf(sign + u, 0, sign == "-", u, base, d, DigitsValue(d, base));
  }

  lemma PrefixTag(tag: char, d: string, base: nat)
    requires base == (match LowerChar(tag) case 'x' => 16 case 'o' => 8 case 'b' => 2 case _ => 0) && base > 0
    ensures BasePrefix(['0', tag] + d, 0) == (base, d)
  {
    assert (['0', tag] + d)[2..] == d;
  }

  /** A sign in front of text that has none of its own. */
  lemma SignedText(sign: string, u: string)
    requires sign == "" || sign == "-"
    requires |u| > 0 && u[0] != '-' && u[0] != '+'
    ensures SignOf(sign + u) == (sign == "-", u)
  {
    if sign == "-" {
      assert (sign + u)[1..] == u;
    } else {
      assert sign + u == u;
    }
  }

  /** Digits without underscores are kept as they are. */
  lemma {:induction false} UnscoredDigits(d: string, base: nat)
    requires forall i :: 0 <= i < |d| ==> IsDigitIn(d[i], base)
    ensures Unscored(d, base) == d
    decreases |d|
  {
    if |d| > 0 {
      assert IsDigitIn(d[0], base);
      UnscoredDigits(d[1..], base);
      assert d == [d[0]] + d[1..];
    }
  }

  /** One-argument `int()` of a run of decimal digits and underscores:
      leading zeros are allowed, unlike CPython, and no prefix can start
      such a run. */
  lemma IntDecimalRun(d: string)
    requires |d| > 0 && forall i :: 0 <= i < |d| ==> IsNumeralChar(d[i], 10)
    ensures Int(d, StrText) == Ok(DigitsValue(Unscored(d, 10), 10) as int)
  {
    IntDecimalPieces(d);
  }

  lemma IntDecimalPieces(d: string)
    requires |d| > 0 && forall i :: 0 <= i < |d| ==> IsNumeralChar(d[i], 10)
    ensures ParseInt(d, 0, StrText) == Some(DigitsValue(Unscored(d, 10), 10) as int)
  {
    assert IsNumeralChar(d[0], 10) && IsNumeralChar(d[|d| - 1], 10);
    IntOfTrimmed(d, 0);
    DecimalRun(d);
  }

  lemma DecimalRun(d: string)
    requires |d| > 0 && forall i :: 0 <= i < |d| ==> IsNumeralChar(d[i], 10)
    ensures ParseNumeral(d, 0) == Some(DigitsValue(Unscored(d, 10), 10) as int)
  {
    NoPrefix(d);
    DigitRun(d, 10);
  }

  /** A run of decimal digits and underscores carries no base prefix. */
  lemma NoPrefix(d: string)
    requires |d| > 0 && forall i :: 0 <= i < |d| ==> IsNumeralChar(d[i], 10)
    ensures BasePrefix(d, 0) == (10, d)
  {
    if |d| >= 2 {
      assert IsNumeralChar(d[1], 10);
    }
  }

  /** `int(s, 16)` of a run of hexadecimal digits and underscores, as in
      a checksum field such as `_A`. */
  lemma HexRun(d: string)
    requires |d| > 0 && forall i :: 0 <= i < |d| ==> IsNumeralChar(d[i], 16)
    ensures ParseInt(d, 16, StrText) == Some(DigitsValue(Unscored(d, 16), 16) as int)
  {
    assert IsNumeralChar(d[0], 16) && IsNumeralChar(d[|d| - 1], 16);
    IntOfTrimmed(d, 16);
    HexNumeral(d);
  }

  lemma HexNumeral(d: string)
    requires |d| > 0 && forall i :: 0 <= i < |d| ==> IsNumeralChar(d[i], 16)
    ensures ParseNumeral(d, 16) == Some(DigitsValue(Unscored(d, 16), 16) as int)
  {
    HexNoPrefix(d);
    assert SignOf(d) == (false, d) by {
      assert IsNumeralChar(d[0], 16);
    }
    DigitRun(d, 16);
  }

  /** A run of hexadecimal digits and underscores holds no `x`. */
  lemma HexNoPrefix(d: string)
    requires |d| > 0 && forall i :: 0 <= i < |d| ==> IsNumeralChar(d[i], 16)
    ensures BasePrefix(d, 16) == (16, d)
  {
    if |d| >= 2 {
      assert IsNumeralChar(d[1], 16);
    }
  }

  /** Underscores are passed over piecewise: the digits of a
      concatenation are the digits of its parts. */
  lemma {:induction false} UnscoredConcat(a: string, b: string, base: nat)
    requires forall i :: 0 <= i < |a| ==> IsNumeralChar(a[i], base)
    requires forall i :: 0 <= i < |b| ==> IsNumeralChar(b[i], base)
    ensures forall i :: 0 <= i < |a + b| ==> IsNumeralChar((a + b)[i], base)
    ensures Unscored(a + b, base) == Unscored(a, base) + Unscored(b, base)
    decreases |a|
  {
    NumeralConcat(a, b, base);
    if |a| == 0 {
      assert a + b == b;
    } else {
      var t, a' := a + b, a[1..];
      assert t[0] == a[0] && t[1..] == a' + b;
      UnscoredConcat(a', b, base);
      var h := if a[0] == '_' then [] else [a[0]];
      assert Unscored(t, base) == h + Unscored(a' + b, base);
      assert Unscored(a, base) == h + Unscored(a', base);
    }
  }

  lemma NumeralConcat(a: string, b: string, base: nat)
    requires forall i :: 0 <= i < |a| ==> IsNumeralChar(a[i], base)
    requires forall i :: 0 <= i < |b| ==> IsNumeralChar(b[i], base)
    ensures forall i :: 0 <= i < |a + b| ==> IsNumeralChar((a + b)[i], base)
  {
    forall i | 0 <= i < |a + b| ensures IsNumeralChar((a + b)[i], base) {
      if i < |a| { assert (a + b)[i] == a[i]; } else { assert (a + b)[i] == b[i - |a|]; }
    }
  }

  /** An underscore between digits changes nothing: `a_b` has the digits,
      and so the value, of `ab`. */
  lemma UnderscoreSkipped(a: string, b: string, base: nat)
    requires forall i :: 0 <= i < |a| ==> IsNumeralChar(a[i], base)
    requires forall i :: 0 <= i < |b| ==> IsNumeralChar(b[i], base)
    ensures forall i :: 0 <= i < |a + b| ==> IsNumeralChar((a + b)[i], base)
    ensures forall i :: 0 <= i < |a + "_" + b| ==> IsNumeralChar((a + "_" + b)[i], base)
    ensures Unscored(a + "_" + b, base) == Unscored(a + b, base)
  {
    UnscoredConcat(a, b, base);
    UnscoredConcat("_", b, base);
    UnscoredConcat(a, "_" + b, base);
    assert a + "_" + b == a + ("_" + b);
    assert Unscored("_", base) == [] by {
      assert "_"[1..] == [];
    }
  }

  // ---------------------------------------------------------------------
  // Rendering numbers

  function DigitChar(d: nat): (c: char)
    requires d < 16
    ensures DigitValue(c) == d
  {
    if d < 10 then ('0' as int + d) as char else ('A' as int + d - 10) as char
  }

  function DecimalDigits(n: nat): (r: string)
    ensures |r| > 0
    ensures forall i :: 0 <= i < |r| ==> '0' <= r[i] <= '9'
    decreases n
  {
    if n < 10 then [DigitChar(n)] else DecimalDigits(n / 10) + [DigitChar(n % 10)]
  }

  /** Python's `'%d' % n`. */
  function Decimal(n: int): (r: string)
    ensures |r| > 0
  {
    if n < 0 then "-" + DecimalDigits(-n) else DecimalDigits(n)
  }

  function HexDigits(n: nat): (r: string)
    ensures n < 16 ==> r == [DigitChar(n)]
    ensures n >= 16 ==> |r| >= 2
    ensures 16 <= n < 256 ==> r == [DigitChar(n / 16), DigitChar(n % 16)]
    ensures forall i :: 0 <= i < |r| ==> IsDigitIn(r[i], 16)
    decreases n
  {
    if n < 16 then [DigitChar(n)] else HexDigits(n / 16) + [DigitChar(n % 16)]
  }

  /** Python's `'{:02x}'.format(n).upper()`: upper-case hexadecimal, at
      least two digits. */
  function Hex02Upper(n: nat): (r: string)
    ensures |r| >= 2
    ensures n < 256 ==> |r| == 2
  {
    if n < 16 then "0" + HexDigits(n) else HexDigits(n)
  }

  /** `b'%d' % n`: the same digits as bytes. */
  function DecimalBytes(n: int): Bytes {
    DecimalChars(n);
    Decimal(n)
  }

  /** `'%d' % n` is made of digits and, for a negative `n`, a leading `-`. */
  lemma DecimalChars(n: int)
    ensures forall i :: 0 <= i < |Decimal(n)| ==> Decimal(n)[i] == '-' || '0' <= Decimal(n)[i] <= '9'
  {
    if n < 0 {
      var d := DecimalDigits(-n);
      assert forall i :: 1 <= i < |Decimal(n)| ==> Decimal(n)[i] == d[i - 1];
    }
  }

  /** `int('%d' % n) == n`, for bytes and str alike. */
  lemma DecimalParses(n: int, f: Flavour)
    ensures Int(Decimal(n), f) == Ok(n)
  {
    ParseDecimal(n, [], f);
    assert [] + Decimal(n) == Decimal(n);
  }

  lemma DecimalNoComma(n: int)
    ensures ',' !in Decimal(n)
  {
    DecimalChars(n);
  }

  lemma {:induction false} DecimalDigitsValue(n: nat)
    ensures forall i :: 0 <= i < |DecimalDigits(n)| ==> IsDigitIn(DecimalDigits(n)[i], 10)
    ensures DigitsValue(DecimalDigits(n), 10) == n
    decreases n
  {
    if n >= 10 {
      DecimalDigitsValue(n / 10);
      var r := DecimalDigits(n);
      assert r[..|r| - 1] == DecimalDigits(n / 10);
    }
  }

  /** `int('%d' % n) == n`, also with white space in front, as in the
      field after `+CSQ:`. */
  lemma {:induction false} ParseDecimal(n: int, pad: string, f: Flavour)
    requires forall i :: 0 <= i < |pad| ==> IsSpace(pad[i], f)
    ensures ParseInt(pad + Decimal(n), 0, f) == Some(n)
  {
    var d := Decimal(n);
    var m := if n < 0 then -n else n;
    var digits := DecimalDigits(m);
    DecimalDigitsValue(m);
    assert d[|d| - 1] == digits[|digits| - 1];
    StripAsPadded(pad, d, f);
    if n < 0 {
      ParseNegatedDigitText(pad + d, f, digits);
    } else {
      ParseDigitText(pad + d, f, digits);
    }
  }

  /** `int()` of a run of decimal digits. */
  lemma ParseDigitText(s: string, f: Flavour, digits: string)
    requires |digits| > 0
    requires forall i :: 0 <= i < |digits| ==> IsDigitIn(digits[i], 10)
    requires StripAs(s, f) == digits
    ensures ParseInt(s, 0, f) == Some(DigitsValue(digits, 10) as int)
  {
    UnsignedNumeral(digits);
  }

  lemma UnsignedNumeral(digits: string)
    requires |digits| > 0
    requires forall i :: 0 <= i < |digits| ==> IsDigitIn(digits[i], 10)
    ensures ParseNumeral(digits, 0) == Some(DigitsValue(digits, 10) as int)
  {
    assert digits[0] != '-' && digits[0] != '+' by {
      assert IsDigitIn(digits[0], 10);
    }
    SignedText("", digits);
    DecimalPrefix(digits);
    DigitsOnly(digits, 10);
  }

  /** `int()` of a minus sign followed by a run of decimal digits. */
  lemma ParseNegatedDigitText(s: string, f: Flavour, digits: string)
    requires |digits| > 0
    requires forall i :: 0 <= i < |digits| ==> IsDigitIn(digits[i], 10)
    requires StripAs(s, f) == "-" + digits
    ensures ParseInt(s, 0, f) == Some(Signed(true, DigitsValue(digits, 10)))
  {
    NegatedNumeral(digits);
  }

  lemma NegatedNumeral(digits: string)
    requires |digits| > 0
    requires forall i :: 0 <= i < |digits| ==> IsDigitIn(digits[i], 10)
    ensures ParseNumeral("-" + digits, 0) == Some(Signed(true, DigitsValue(digits, 10)))
  {
    assert IsDigitIn(digits[0], 10);
    SignedText("-", digits);
    DecimalPrefix(digits);
    DigitsOnly(digits, 10);
    NumeralOf("-" + digits, 0, true, digits, 10, digits, DigitsValue(digits, 10));
  }

  /** The numeral parser composed from its three steps. */
  lemma NumeralOf(t: string, base: nat, neg: bool, u: string, b: nat, d: string, v: nat)
    requires KnownBase(base)
    requires SignOf(t) == (neg, u) && BasePrefix(u, base) == (b, d) && ParseDigits(d, b) == Some(v)
    ensures ParseNumeral(t, base) == Some(Signed(neg, v))
  {
  }

  /** A run of digits without underscores reads as its value. */
  lemma DigitsOnly(d: string, base: nat)
    requires |d| > 0 && forall i :: 0 <= i < |d| ==> IsDigitIn(d[i], base)
    ensures ParseDigits(d, base) == Some(DigitsValue(d, base))
  {
    UnscoredDigits(d, base);
    DigitRun(d, base);
  }

  /** Decimal digits carry no base prefix: base 0 reads them in base 10. */
  lemma DecimalPrefix(digits: string)
    requires forall i :: 0 <= i < |digits| ==> IsDigitIn(digits[i], 10)
    ensures BasePrefix(digits, 0) == (10, digits)
  {
    if |digits| >= 2 {
      assert IsDigitIn(digits[1], 10);
    }
  }

  lemma {:induction false} StripPadding<T>(pad: seq<T>, s: seq<T>, sp: T -> bool)
    requires forall i :: 0 <= i < |pad| ==> sp(pad[i])
    ensures Strip(pad + s, sp) == Strip(s, sp)
    decreases |pad|
  {
    if |pad| > 0 {
      var rest := pad[1..];
      assert pad + s == [pad[0]] + (rest + s);
      assert sp(pad[0]);
      StripDropsLeadingSpace(pad[0], rest + s, sp);
      assert forall i :: 0 <= i < |rest| ==> sp(rest[i]) by {
        forall i | 0 <= i < |rest| ensures sp(rest[i]) {
          assert rest[i] == pad[i + 1];
        }
      }
      StripPadding(rest, s, sp);
    } else {
      assert pad + s == s;
    }
  }

  lemma DigitsValuePair(a: char, b: char, base: nat)
    requires IsDigitIn(a, base) && IsDigitIn(b, base)
    ensures DigitsValue([a, b], base) == DigitValue(a) * base + DigitValue(b)
  {
    assert [a, b][..1] == [a];
    assert [a][..0] == [];
    assert DigitsValue([a], base) == DigitValue(a);
  }

  /** `int('{:02x}'.format(n).upper(), 16) == n` for one byte's worth. */
  lemma HexRoundTrip(n: nat)
    requires n < 256
    ensures ParseInt(Hex02Upper(n), 16, StrText) == Some(n)
  {
    var hi, lo := DigitChar(n / 16), DigitChar(n % 16);
    assert Hex02Upper(n) == [hi, lo];
    TwoHexDigits(hi, lo);
    assert DigitValue(hi) * 16 + DigitValue(lo) == n;
    StripNoSpaceEnds([hi, lo], IsStrSpace);
  }

  /** Two hexadecimal digits parse to their value. */
  lemma TwoHexDigits(a: char, b: char)
    requires IsDigitIn(a, 16) && IsDigitIn(b, 16)
    ensures ParseNumeral([a, b], 16) == Some(DigitValue(a) * 16 + DigitValue(b))
  {
    DigitsValuePair(a, b, 16);
    SignedText("", [a, b]);
    assert "" + [a, b] == [a, b];
    HexNoPrefix([a, b]);
    DigitsOnly([a, b], 16);
  }
}
