/** The percent encoding of byte strings: a chunking encoder, a backtracking decoder and a shortcut decoder. */
module PercentEncoding {
  import opened Bytes

  const PERCENT: byte := 0x25

  // ---------------------------------------------------------------- encode sets

  /** Which bytes to encode. */
  type EncodeSet = byte -> bool

  predicate Simple(b: byte) { b < 0x20 || b > 0x7E }

  predicate Query(b: byte) { b as char in {' ', '"', '#', '<', '>'} || Simple(b) }

  predicate Default(b: byte) { b as char in {'`', '?', '{', '}'} || Query(b) }

  predicate PathSegment(b: byte) { b as char in {'%', '/'} || Default(b) }

  predicate UserInfo(b: byte) { b as char in {'/', ':', ';', '=', '@', '[', '\\', ']', '^', '|'} || Default(b) }

  /** What is asked of every set: all bytes outside ASCII are in it. */
  ghost predicate CoversNonAscii(e: EncodeSet) {
    forall b: byte | b >= 0x80 :: e(b)
  }

  ghost predicate KeepsDigits(e: EncodeSet) {
    forall b: byte | Digit(b).Some? :: !e(b)
  }

  /** The five sets; only `PathSegment` has the percent sign. */
  lemma TheSets(e: EncodeSet)
    requires e in [Simple, Query, Default, PathSegment, UserInfo]
    ensures CoversNonAscii(e) && KeepsDigits(e)
    ensures e(PERCENT) <==> e == PathSegment
  {
  }

  // ---------------------------------------------------------------- one byte

  /** The upper-case hexadecimal digit. */
  function Hex(d: nat): (b: byte)
    requires d < 16
    ensures Digit(b) == Some(d)
  {
    if d < 10 then 0x30 + d else 0x41 + (d - 10)
  }

  /** The value of a hexadecimal digit of either case. */
  function Digit(b: byte): (d: Option<nat>)
    ensures d.Some? ==> d.value < 16
  {
    if 0x30 <= b <= 0x39 then Some(b - 0x30)
    else if 0x41 <= b <= 0x46 then Some(b - 0x41 + 10)
    else if 0x61 <= b <= 0x66 then Some(b - 0x61 + 10)
    else None
  }

  function EncodeByte(b: byte): (r: seq<byte>)
    ensures |r| == 3 && Escaped(r, 0) && EscapedByte(r, 0) == b
  {
    [PERCENT, Hex(b / 16), Hex(b % 16)]
  }

  /** A percent sign with two hexadecimal digits after it. */
  predicate Escaped(s: seq<byte>, i: nat) {
    i + 2 < |s| && s[i] == PERCENT && Digit(s[i + 1]).Some? && Digit(s[i + 2]).Some?
  }

  function EscapedByte(s: seq<byte>, i: nat): byte
    requires Escaped(s, i)
  {
    Digit(s[i + 1]).value * 16 + Digit(s[i + 2]).value
  }

  ghost predicate HasEscape(s: seq<byte>) {
    exists i: nat :: Escaped(s, i)
  }

  // ---------------------------------------------------------------- the two directions

  /** What encoding means: each byte of the set is escaped, each other byte stands for itself. */
  function Encode(e: EncodeSet, s: seq<byte>): seq<byte> {
    if s == [] then [] else EncodeOne(e, s[0]) + Encode(e, s[1..])
  }

  function EncodeOne(e: EncodeSet, b: byte): seq<byte> { if e(b) then EncodeByte(b) else [b] }

  /** What decoding means: each escape, from the left, stands for its byte, every other byte for itself. */
  function Decode(s: seq<byte>): seq<byte> {
    if s == [] then []
    else if Escaped(s, 0) then [EscapedByte(s, 0)] + Decode(s[3..])
    else [s[0]] + Decode(s[1..])
  }

  // ---------------------------------------------------------------- the encoding, character by character

  /** The hexadecimal digits of either case, with their values. */
  lemma DigitExactly(b: byte, d: nat)
    ensures Digit(b) == Some(d) <==>
            d < 16 && (b as char == "0123456789ABCDEF"[d] || b as char == "0123456789abcdef"[d])
  {
  }

  /** An escape is the percent sign and two upper-case digits. */
  lemma EncodeByteExactly(b: byte)
    ensures EncodeByte(b) == ['%' as byte, "0123456789ABCDEF"[b / 16] as byte, "0123456789ABCDEF"[b % 16] as byte]
  {
  }

  lemma OneByte(e: EncodeSet, b: byte)
    ensures Encode(e, [b]) == EncodeOne(e, b)
  {
    assert [b][1..] == [];
  }

  /** Which bytes stand for themselves: the printable ones, without those each set names. */
  lemma StandsForItself(b: byte)
    ensures Encode(Simple, [b]) == [b] <==> 0x20 <= b <= 0x7E
    ensures Encode(Query, [b]) == [b] <==> 0x20 <= b <= 0x7E && b as char !in " \"#<>"
    ensures Encode(Default, [b]) == [b] <==> 0x20 <= b <= 0x7E && b as char !in " \"#<>`?{}"
    ensures Encode(PathSegment, [b]) == [b] <==> 0x20 <= b <= 0x7E && b as char !in " \"#<>`?{}%/"
    ensures Encode(UserInfo, [b]) == [b] <==> 0x20 <= b <= 0x7E && b as char !in " \"#<>`?{}/:;=@[\\]^|"
  {
    OneByte(Simple, b);
    OneByte(Query, b);
    OneByte(Default, b);
    OneByte(PathSegment, b);
    OneByte(UserInfo, b);
  }

  lemma EncodeCons(e: EncodeSet, b: byte, s: seq<byte>)
    ensures Encode(e, [b] + s) == EncodeOne(e, b) + Encode(e, s)
  {
    assert ([b] + s)[1..] == s;
  }

  lemma Associative(a: seq<byte>, b: seq<byte>, c: seq<byte>)
    ensures a + (b + c) == a + b + c
  {
  }

  /** Encoding goes byte by byte: each stands for itself or becomes its escape. */
  lemma {:induction false} EncodeAppend(e: EncodeSet, s: seq<byte>, t: seq<byte>)
    ensures Encode(e, s + t) == Encode(e, s) + Encode(e, t)
  {
    if s == [] {
      assert s + t == t;
    } else {
      var b, rest := s[0], s[1..];
      EncodeAppend(e, rest, t);
      assert s + t == [b] + (rest + t);
      EncodeCons(e, b, rest + t);
      Associative(EncodeOne(e, b), Encode(e, rest), Encode(e, t));
    }
  }

  /** In an encoding every byte stands for itself, except the percent signs that start an escape. */
  lemma {:induction false} EncodingIsPlain(e: EncodeSet, s: seq<byte>, i: nat)
    requires KeepsDigits(e) && i < |Encode(e, s)|
    ensures var t := Encode(e, s); Encode(e, [t[i]]) == [t[i]] || (t[i] == PERCENT && Escaped(t, i))
  {
    var t, first := Encode(e, s), EncodeOne(e, s[0]);
    assert t == first + Encode(e, s[1..]);
    OneByte(e, t[i]);
    if i >= |first| {
      EncodingIsPlain(e, s[1..], i - |first|);
    } else if e(s[0]) && i > 0 {
      assert Digit(first[i]).Some?;
    }
  }

  // ---------------------------------------------------------------- round trips

  /** The first byte is a hexadecimal digit exactly when that of the encoding is; then they are the same. */
  lemma EncodeKeepsDigits(e: EncodeSet, s: seq<byte>)
    requires KeepsDigits(e)
    ensures var t := Encode(e, s);
            && (|t| >= 1 && Digit(t[0]).Some? <==> |s| >= 1 && Digit(s[0]).Some?)
            && (|s| >= 1 && Digit(s[0]).Some? ==> t == [s[0]] + Encode(e, s[1..]))
  {
  }

  predicate TwoDigits(s: seq<byte>) { |s| >= 2 && Digit(s[0]).Some? && Digit(s[1]).Some? }

  /** So are the first two. */
  lemma EncodeKeepsTwoDigits(e: EncodeSet, s: seq<byte>)
    requires KeepsDigits(e)
    ensures TwoDigits(Encode(e, s)) <==> TwoDigits(s)
    ensures TwoDigits(s) ==> Encode(e, s) == [s[0], s[1]] + Encode(e, s[2..])
  {
    EncodeKeepsDigits(e, s);
    if |s| >= 1 && Digit(s[0]).Some? {
      var rest, u := s[1..], Encode(e, s[1..]);
      assert Encode(e, s) == [s[0]] + u;
      EncodeKeepsDigits(e, rest);
      if |rest| >= 1 && Digit(rest[0]).Some? {
        assert rest[1..] == s[2..];
        assert u == [s[1]] + Encode(e, s[2..]);
      }
    }
  }

  /** A percent sign kept by the set starts an escape after encoding exactly when it did before. */
  lemma EncodeKeepsEscapes(e: EncodeSet, s: seq<byte>)
    requires KeepsDigits(e) && s != [] && s[0] == PERCENT && !e(PERCENT)
    ensures Escaped(Encode(e, s), 0) <==> Escaped(s, 0)
    ensures Escaped(s, 0) ==>
              EscapedByte(Encode(e, s), 0) == EscapedByte(s, 0) && Encode(e, s)[3..] == Encode(e, s[3..])
  {
    var rest, u := s[1..], Encode(e, s[1..]);
    assert Encode(e, s) == [PERCENT] + u;
    EncodeKeepsTwoDigits(e, rest);
    assert Escaped(s, 0) <==> TwoDigits(rest);
    assert Escaped(Encode(e, s), 0) <==> TwoDigits(u);
    if TwoDigits(rest) { assert rest[2..] == s[3..]; }
  }

  /** Decoding the encoding: the input itself if the set has the percent sign, else the input decoded. */
  lemma {:induction false} DecodeEncode(e: EncodeSet, s: seq<byte>)
    requires KeepsDigits(e)
    ensures Decode(Encode(e, s)) == if e(PERCENT) then s else Decode(s)
  {
    if s == [] {
    } else if e(s[0]) {
      DecodeEncode(e, s[1..]);
      var t := Encode(e, s);
      assert Escaped(t, 0) && EscapedByte(t, 0) == s[0] by { assert t[..3] == EncodeByte(s[0]); }
      assert t[3..] == Encode(e, s[1..]);
      assert s == [s[0]] + s[1..];
    } else if s[0] == PERCENT {
      EncodeKeepsEscapes(e, s);
      DecodeEncode(e, if Escaped(s, 0) then s[3..] else s[1..]);
      assert Encode(e, s)[1..] == Encode(e, s[1..]);
    } else {
      DecodeEncode(e, s[1..]);
      assert Encode(e, s)[1..] == Encode(e, s[1..]);
      assert s == [s[0]] + s[1..];
    }
  }

  /** Bytes before which no escape starts decode to themselves. */
  lemma {:induction false} PlainPrefix(s: seq<byte>, n: nat)
    requires n <= |s| && forall i: nat | i < n :: !Escaped(s, i)
    ensures Decode(s) == s[..n] + Decode(s[n..])
  {
    if n == 0 {
      assert s[0..] == s;
    } else {
      var rest := s[1..];
      forall i: nat | i < n - 1 ensures !Escaped(rest, i) { assert !Escaped(s, i + 1); }
      PlainPrefix(rest, n - 1);
      assert rest[n - 1..] == s[n..] && s[..n] == [s[0]] + rest[..n - 1];
      assert Decode(s) == [s[0]] + Decode(rest) by { assert !Escaped(s, 0); }
      Associative([s[0]], rest[..n - 1], Decode(s[n..]));
    }
  }

  lemma {:induction false} DecodeShrinks(s: seq<byte>)
    ensures |Decode(s)| <= |s|
  {
    if s != [] {
      DecodeShrinks(if Escaped(s, 0) then s[3..] else s[1..]);
    }
  }

  lemma FirstEscape(s: seq<byte>, n: nat) returns (k: nat)
    requires Escaped(s, n)
    ensures k <= n && Escaped(s, k) && forall i: nat | i < k :: !Escaped(s, i)
  {
    k := 0;
    while !Escaped(s, k)
      invariant k <= n && forall i: nat | i < k :: !Escaped(s, i)
      decreases n - k
    {
      k := k + 1;
    }
  }

  /** Decoding changes a byte string exactly when it has an escape. */
  lemma DecodeChanges(s: seq<byte>)
    ensures Decode(s) == s <==> !HasEscape(s)
  {
    if HasEscape(s) {
      var n: nat :| Escaped(s, n);
      var k := FirstEscape(s, n);
      PlainPrefix(s, k);
      assert Escaped(s[k..], 0);
      DecodeShrinks(s[k..][3..]);
    } else {
      PlainPrefix(s, |s|);
    }
  }

  /** The round trip holds for every input under `PathSegment`, and under the other sets just without escapes. */
  lemma RoundTrip(e: EncodeSet, s: seq<byte>)
    requires e in [Simple, Query, Default, PathSegment, UserInfo]
    ensures Decode(Encode(e, s)) == s <==> e == PathSegment || !HasEscape(s)
  {
    TheSets(e);
    DecodeEncode(e, s);
    DecodeChanges(s);
  }

  // ---------------------------------------------------------------- the encoder

  /** Bytes outside the set encode to themselves. */
  lemma {:induction false} PlainRun(e: EncodeSet, s: seq<byte>, n: nat)
    requires n <= |s| && forall i | 0 <= i < n :: !e(s[i])
    ensures Encode(e, s) == s[..n] + Encode(e, s[n..])
  {
    if n == 0 {
      assert s[0..] == s;
    } else {
      var rest := s[1..];
      PlainRun(e, rest, n - 1);
      assert rest[n - 1..] == s[n..] && s[..n] == [s[0]] + rest[..n - 1];
      Associative([s[0]], rest[..n - 1], Encode(e, s[n..]));
    }
  }

  /** The next chunk: one escape, or the longest run of bytes that stand for themselves. */
  ghost predicate IsChunk(e: EncodeSet, s: seq<byte>, chunk: seq<byte>, rest: seq<byte>) {
    s != [] &&
    if e(s[0]) then chunk == EncodeByte(s[0]) && rest == s[1..]
    else chunk != [] && s == chunk + rest && (forall b | b in chunk :: !e(b)) && (rest == [] || e(rest[0]))
  }

  class PercentEncode {
    var bytes: seq<byte>
    const encodeSet: EncodeSet

    ghost predicate Valid() { CoversNonAscii(encodeSet) }

    constructor (input: seq<byte>, e: EncodeSet)
      requires CoversNonAscii(e)
      ensures Valid() && bytes == input && encodeSet == e
    {
      bytes, encodeSet := input, e;
    }

    method Next() returns (r: Option<seq<byte>>)
      requires Valid()
      modifies this
      ensures r.None? <==> old(bytes) == []
      ensures r.None? ==> bytes == []
      ensures r.Some? ==> IsChunk(encodeSet, old(bytes), r.value, bytes) && |bytes| < |old(bytes)|
      ensures r.Some? ==> Encode(encodeSet, old(bytes)) == r.value + Encode(encodeSet, bytes)
      ensures r.Some? ==> forall b | b in r.value :: b < 0x80
    {
      if bytes == [] { return None; }
      if encodeSet(bytes[0]) {
        r := Some(EncodeByte(bytes[0]));
        bytes := bytes[1..];
        return;
      }
      assert bytes[0] < 0x80;
      var i := 1;
      while i < |bytes| && !encodeSet(bytes[i])
        invariant 1 <= i <= |bytes| && bytes == old(bytes)
        invariant forall k | 0 <= k < i :: !encodeSet(bytes[k]) && bytes[k] < 0x80
      {
        assert bytes[i] < 0x80;
        i := i + 1;
      }
      PlainRun(encodeSet, bytes, i);
      r := Some(bytes[..i]);
      bytes := bytes[i..];
    }

    /** Writing the chunks one after the other. */
    method Collect() returns (text: seq<byte>)
      requires Valid()
      modifies this
      ensures text == Encode(encodeSet, old(bytes)) && bytes == []
    {
      text := [];
      while bytes != []
        invariant text + Encode(encodeSet, bytes) == Encode(encodeSet, old(bytes))
        decreases |bytes|
      {
        var chunk := Next();
        text := text + chunk.value;
      }
    }

    /** Conversion to text, which allocates only when there is more than one chunk. */
    method Into() returns (text: seq<byte>, borrowed: bool)
      requires Valid()
      modifies this
      ensures text == Encode(encodeSet, old(bytes))
      ensures borrowed <==> |old(bytes)| <= 1 || forall b | b in old(bytes) :: !encodeSet(b)
    {
      var first := Next();
      if first.None? { return [], true; }
      var second := Next();
      if second.None? { return first.value, true; }
      var rest := Collect();
      Associative(first.value, second.value, rest);
      return first.value + second.value + rest, false;
    }
  }

  // ---------------------------------------------------------------- the decoder

  /** One step of decoding, at a position. */
  lemma DecodeAt(s: seq<byte>, p: nat)
    requires p < |s|
    ensures Decode(s[p..]) ==
            if Escaped(s, p) then [EscapedByte(s, p)] + Decode(s[p + 3..]) else [s[p]] + Decode(s[p + 1..])
  {
    assert Escaped(s[p..], 0) <==> Escaped(s, p);
    if Escaped(s, p) { assert s[p..][3..] == s[p + 3..]; } else { assert s[p..][1..] == s[p + 1..]; }
  }

  /** An iterator over a slice of bytes, and the decoder on top of it. */
  class PercentDecode {
    const bytes: seq<byte>
    var pos: nat

    ghost predicate Valid()
      reads this
    {
      pos <= |bytes|
    }

    constructor (input: seq<byte>)
      ensures Valid() && bytes == input && pos == 0
    {
      bytes, pos := input, 0;
    }

    method NextByte() returns (r: Option<byte>)
      requires Valid()
      modifies this
      ensures Valid()
      ensures r == if old(pos) < |bytes| then Some(bytes[old(pos)]) else None
      ensures pos == if old(pos) < |bytes| then old(pos) + 1 else old(pos)
    {
      if pos == |bytes| { return None; }
      r := Some(bytes[pos]);
      pos := pos + 1;
    }

    /** Skips up to and including the first percent sign; false when there is none. */
    method SkipPercent() returns (found: bool)
      requires Valid()
      modifies this
      ensures Valid() && old(pos) <= pos
      ensures found ==> old(pos) < pos && bytes[pos - 1] == PERCENT
      ensures !found ==> pos == |bytes|
      ensures forall i | old(pos) <= i < (if found then pos - 1 else pos) :: bytes[i] != PERCENT
    {
      while pos < |bytes|
        invariant old(pos) <= pos <= |bytes| && forall i | old(pos) <= i < pos :: bytes[i] != PERCENT
      {
        pos := pos + 1;
        if bytes[pos - 1] == PERCENT { return true; }
      }
      return false;
    }

    /** The byte of an escape whose percent sign was just read; backs up when the digits are not there. */
    method AfterPercentSign() returns (r: Option<byte>)
      requires Valid() && pos > 0 && bytes[pos - 1] == PERCENT
      modifies this
      ensures Valid()
      ensures r.Some? <==> Escaped(bytes, old(pos) - 1)
      ensures r.Some? ==> r.value == EscapedByte(bytes, old(pos) - 1) && pos == old(pos) + 2
      ensures r.None? ==> pos == old(pos)
    {
      var initial := pos;
      var h := NextByte();
      var l := NextByte();
      if h.Some? && l.Some? && Digit(h.value).Some? && Digit(l.value).Some? {
        r := Some(Digit(h.value).value * 16 + Digit(l.value).value);
      } else {
        pos := initial;
        r := None;
      }
    }

    /** The next decoded byte. */
    method Next() returns (r: Option<byte>)
      requires Valid()
      modifies this
      ensures Valid() && (r.None? <==> old(pos) == |bytes|)
      ensures r.None? ==> pos == |bytes|
      ensures r.Some? ==> old(pos) < pos && Decode(bytes[old(pos)..]) == [r.value] + Decode(bytes[pos..])
    {
      r := NextByte();
      if r.Some? {
        DecodeAt(bytes, old(pos));
        if r.value == PERCENT {
          var b := AfterPercentSign();
          if b.Some? { r := b; }
        }
      }
    }

    /** Collecting the iterator. */
    method Collect() returns (out: seq<byte>)
      requires Valid()
      modifies this
      ensures Valid() && pos == |bytes| && out == Decode(bytes[old(pos)..])
    {
      out := [];
      while pos < |bytes|
        invariant Valid() && out + Decode(bytes[pos..]) == Decode(bytes[old(pos)..])
        decreases |bytes| - pos
      {
        var b := Next();
        out := out + [b.value];
      }
    }
  }

  /** Decoding from the first escape on. */
  lemma DecodeFromFirst(s: seq<byte>, p: nat)
    requires Escaped(s, p) && forall i: nat | i < p :: !Escaped(s, i)
    ensures Decode(s) == s[..p] + [EscapedByte(s, p)] + Decode(s[p + 3..])
    ensures Decode(s) != s && HasEscape(s)
  {
    PlainPrefix(s, p);
    DecodeAt(s, p);
    DecodeChanges(s);
  }

  /** The shortcut: none when decoding would change nothing, else the decoded bytes. */
  method IfAny(bytes: seq<byte>) returns (r: Option<seq<byte>>)
    ensures r == if Decode(bytes) == bytes then None else Some(Decode(bytes))
    ensures r.Some? <==> HasEscape(bytes)
  {
    var iter := new PercentDecode(bytes);
    var found := iter.SkipPercent();
    while found
      invariant iter.Valid() && iter.bytes == bytes
      invariant found ==> iter.pos > 0 && bytes[iter.pos - 1] == PERCENT
      invariant !found ==> iter.pos == |bytes|
      invariant forall i: nat | i < iter.pos - (if found then 1 else 0) :: !Escaped(bytes, i)
      decreases |bytes| - iter.pos, found
    {
      ghost var p := iter.pos - 1;
      var b := iter.AfterPercentSign();
      if b.Some? {
        DecodeFromFirst(bytes, p);
        var decoded := bytes[..iter.pos - 3] + [b.value];
        var rest := iter.Collect();
        return Some(decoded + rest);
      }
      found := iter.SkipPercent();
    }
    DecodeChanges(bytes);
    return None;
  }
}
