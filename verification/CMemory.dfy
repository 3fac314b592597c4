/** `memmove`, `memcpy` and `memcmp` over one shared byte memory. */
module CMemory {
  import opened Bytes

  const WORD: nat := 8

  // ---------------------------------------------------------------- machine words

  /** The little-endian number stored in some bytes. */
  function Word(bytes: seq<byte>): nat {
    if bytes == [] then 0 else bytes[0] + 256 * Word(bytes[1..])
  }

  /** The bytes a store of `w` writes. */
  function BytesOf(w: nat, n: nat): seq<byte> {
    if n == 0 then [] else [w % 256] + BytesOf(w / 256, n - 1)
  }

  lemma {:induction false} BytesOfLength(w: nat, n: nat)
    ensures |BytesOf(w, n)| == n
  {
    if n > 0 { BytesOfLength(w / 256, n - 1); }
  }

  /** A word loaded from bytes and stored again writes those bytes. */
  lemma {:induction false} LoadStore(bytes: seq<byte>)
    ensures BytesOf(Word(bytes), |bytes|) == bytes
  {
    if bytes != [] {
      LoadStore(bytes[1..]);
      assert Word(bytes) % 256 == bytes[0] && Word(bytes) / 256 == Word(bytes[1..]);
    }
  }

  /** Words are equal exactly when their bytes are. */
  lemma WordsEqual(a: seq<byte>, b: seq<byte>)
    requires |a| == |b|
    ensures Word(a) == Word(b) <==> a == b
  {
    LoadStore(a);
    LoadStore(b);
  }

  // ---------------------------------------------------------------- copying

  /** Memory with `n` bytes from `src` copied to `dst`, all read before any is written. */
  function Copied(mem: seq<byte>, dst: nat, src: nat, n: nat): seq<byte>
    requires dst + n <= |mem| && src + n <= |mem|
  {
    mem[..dst] + mem[src..src + n] + mem[dst + n..]
  }

  lemma CopiedAt(mem: seq<byte>, dst: nat, src: nat, n: nat, k: nat)
    requires dst + n <= |mem| && src + n <= |mem| && k < |mem|
    ensures Copied(mem, dst, src, n)[k] == if dst <= k < dst + n then mem[src + (k - dst)] else mem[k]
  {
  }

  /** What is still to be copied has not been overwritten. */
  lemma SourceIntact(mem: seq<byte>, dst: nat, src: nat, i: nat, k: nat)
    requires dst + i + k <= |mem| && src + i + k <= |mem|
    ensures dst <= src || src + i + k <= dst ==>
              Copied(mem, dst, src, i)[src + i..src + i + k] == mem[src + i..src + i + k]
  {
    if dst <= src || src + i + k <= dst {
      forall j | src + i <= j < src + i + k ensures Copied(mem, dst, src, i)[j] == mem[j] {
        CopiedAt(mem, dst, src, i, j);
      }
    }
  }

  lemma CopyUp(mem: seq<byte>, dst: nat, src: nat, i: nat, k: nat)
    requires dst + i + k <= |mem| && src + i + k <= |mem|
    ensures Copied(mem, dst, src, i + k) ==
            Copied(mem, dst, src, i)[..dst + i] + mem[src + i..src + i + k] + Copied(mem, dst, src, i)[dst + i + k..]
    ensures dst <= src || src + i + k <= dst ==>
              Copied(mem, dst, src, i)[src + i..src + i + k] == mem[src + i..src + i + k]
  {
    SourceIntact(mem, dst, src, i, k);
    var before, after := Copied(mem, dst, src, i), Copied(mem, dst, src, i + k);
    var built := before[..dst + i] + mem[src + i..src + i + k] + before[dst + i + k..];
    forall j | 0 <= j < |mem| ensures after[j] == built[j] {
      CopiedAt(mem, dst, src, i + k, j);
      CopiedAt(mem, dst, src, i, j);
    }
    assert after == built;
  }

  lemma CopyUpOne(mem: seq<byte>, dst: nat, src: nat, i: nat)
    requires dst + i < |mem| && src + i < |mem|
    ensures Copied(mem, dst, src, i + 1) == Copied(mem, dst, src, i)[dst + i := mem[src + i]]
    ensures dst <= src || src + i < dst ==> Copied(mem, dst, src, i)[src + i] == mem[src + i]
  {
    var before, after := Copied(mem, dst, src, i), Copied(mem, dst, src, i + 1);
    forall j | 0 <= j < |mem| ensures after[j] == before[dst + i := mem[src + i]][j] {
      CopiedAt(mem, dst, src, i + 1, j);
      CopiedAt(mem, dst, src, i, j);
    }
    CopiedAt(mem, dst, src, i, src + i);
  }

  /** Only the bytes from `i` to `n` copied. */
  function CopiedFrom(mem: seq<byte>, dst: nat, src: nat, i: nat, n: nat): seq<byte>
    requires i <= n && dst + n <= |mem| && src + n <= |mem|
  {
    Copied(mem, dst + i, src + i, n - i)
  }

  lemma CopiedFromEnd(mem: seq<byte>, dst: nat, src: nat, n: nat)
    requires dst + n <= |mem| && src + n <= |mem|
    ensures CopiedFrom(mem, dst, src, n, n) == mem && CopiedFrom(mem, dst, src, 0, n) == Copied(mem, dst, src, n)
  {
  }

  lemma CopyDown(mem: seq<byte>, dst: nat, src: nat, i: nat, n: nat)
    requires i < n && dst + n <= |mem| && src + n <= |mem|
    ensures CopiedFrom(mem, dst, src, i, n) == CopiedFrom(mem, dst, src, i + 1, n)[dst + i := mem[src + i]]
    ensures src < dst ==> CopiedFrom(mem, dst, src, i + 1, n)[src + i] == mem[src + i]
  {
    var before, after := CopiedFrom(mem, dst, src, i + 1, n), CopiedFrom(mem, dst, src, i, n);
    forall j | 0 <= j < |mem| ensures after[j] == before[dst + i := mem[src + i]][j] {
      CopiedAt(mem, dst + i, src + i, n - i, j);
      CopiedAt(mem, dst + i + 1, src + i + 1, n - i - 1, j);
    }
    CopiedAt(mem, dst + i + 1, src + i + 1, n - i - 1, src + i);
  }

  /** Any two ranges, however they overlap. */
  method Memmove(mem: array<byte>, dst: nat, src: nat, n: nat) returns (r: nat)
    requires dst + n <= mem.Length && src + n <= mem.Length
    modifies mem
    ensures r == dst && mem[..] == Copied(old(mem[..]), dst, src, n)
  {
    ghost var was := mem[..];
    if src < dst {
      CopyBytesDown(mem, dst, src, n);
    } else {
      CopyBytes(mem, dst, src, 0, n, was);
    }
    r := dst;
  }

  method CopyByteDown(mem: array<byte>, dst: nat, src: nat, i: nat, n: nat, ghost was: seq<byte>)
    requires |was| == mem.Length && i < n && dst + n <= mem.Length && src + n <= mem.Length && src < dst
    requires mem[..] == CopiedFrom(was, dst, src, i + 1, n)
    modifies mem
    ensures mem[..] == CopiedFrom(was, dst, src, i, n)
  {
    CopyDown(was, dst, src, i, n);
    mem[dst + i] := mem[src + i];
  }

  method CopyBytesDown(mem: array<byte>, dst: nat, src: nat, n: nat)
    requires dst + n <= mem.Length && src + n <= mem.Length && src < dst
    modifies mem
    ensures mem[..] == Copied(old(mem[..]), dst, src, n)
  {
    ghost var was := mem[..];
    CopiedFromEnd(was, dst, src, n);
    var i: nat := n;
    while i != 0
      invariant i <= n && mem[..] == CopiedFrom(was, dst, src, i, n)
      decreases i
    {
      i := i - 1;
      CopyByteDown(mem, dst, src, i, n, was);
    }
  }

  /** Copies the bytes from `start` to `n`, upwards. */
  method CopyBytes(mem: array<byte>, dst: nat, src: nat, start: nat, n: nat, ghost was: seq<byte>)
    requires |was| == mem.Length && start <= n && dst + n <= mem.Length && src + n <= mem.Length
    requires dst <= src || src + n <= dst
    requires mem[..] == Copied(was, dst, src, start)
    modifies mem
    ensures mem[..] == Copied(was, dst, src, n)
  {
    var i := start;
    while i < n
      invariant i <= n && mem[..] == Copied(was, dst, src, i)
    {
      CopyByte(mem, dst, src, i, was);
      i := i + 1;
    }
  }

  method CopyByte(mem: array<byte>, dst: nat, src: nat, i: nat, ghost was: seq<byte>)
    requires |was| == mem.Length && dst + i < mem.Length && src + i < mem.Length
    requires dst <= src || src + i < dst
    requires mem[..] == Copied(was, dst, src, i)
    modifies mem
    ensures mem[..] == Copied(was, dst, src, i + 1)
  {
    CopyUpOne(was, dst, src, i);
    mem[dst + i] := mem[src + i];
  }

  /** Loads eight bytes as one number and stores that number's bytes. */
  method CopyWord(mem: array<byte>, dst: nat, src: nat, i: nat, ghost was: seq<byte>)
    requires |was| == mem.Length && dst + i + WORD <= mem.Length && src + i + WORD <= mem.Length
    requires dst <= src || src + i + WORD <= dst
    requires mem[..] == Copied(was, dst, src, i)
    modifies mem
    ensures mem[..] == Copied(was, dst, src, i + WORD)
  {
    CopyUp(was, dst, src, i, WORD);
    var bytes := mem[src + i..src + i + WORD];
    LoadStore(bytes);
    StoreWord(mem, dst + i, Word(bytes));
  }

  method StoreWord(mem: array<byte>, p: nat, w: nat)
    requires p + WORD <= mem.Length
    modifies mem
    ensures mem[..] == old(mem[..])[..p] + BytesOf(w, WORD) + old(mem[..])[p + WORD..]
  {
    var bytes := BytesOf(w, WORD);
    BytesOfLength(w, WORD);
    forall k | 0 <= k < WORD { mem[p + k] := bytes[k]; }
  }

  /** Disjoint ranges, as the C standard demands; also ranges where the destination comes first. */
  method Memcpy(mem: array<byte>, dst: nat, src: nat, n: nat) returns (r: nat)
    requires dst + n <= mem.Length && src + n <= mem.Length
    requires dst <= src || src + n <= dst
    modifies mem
    ensures r == dst && mem[..] == Copied(old(mem[..]), dst, src, n)
  {
    ghost var was := mem[..];
    var i := 0;
    while i + 7 < n
      invariant i <= n && mem[..] == Copied(was, dst, src, i)
    {
      CopyWord(mem, dst, src, i, was);
      i := i + WORD;
    }
    CopyBytes(mem, dst, src, i, n, was);
    r := dst;
  }

  // ---------------------------------------------------------------- comparing

  function Difference(x: byte, y: byte): int { x as int - y as int }

  /** The difference of the first pair of bytes that differ, or 0. */
  function Compare(a: seq<byte>, b: seq<byte>): int
    requires |a| == |b|
  {
    if a == [] then 0
    else if a[0] != b[0] then Difference(a[0], b[0])
    else Compare(a[1..], b[1..])
  }

  lemma {:induction false} CompareSkip(a: seq<byte>, b: seq<byte>, k: nat)
    requires |a| == |b| && k <= |a| && a[..k] == b[..k]
    ensures Compare(a, b) == Compare(a[k..], b[k..])
  {
    if k > 0 {
      assert a[0] == a[..k][0] == b[..k][0] == b[0];
      assert a[1..][..k - 1] == a[..k][1..] == b[..k][1..] == b[1..][..k - 1];
      CompareSkip(a[1..], b[1..], k - 1);
      assert a[1..][k - 1..] == a[k..] && b[1..][k - 1..] == b[k..];
    }
  }

  lemma FirstDifference(a: seq<byte>, b: seq<byte>, k: nat)
    requires |a| == |b| && k < |a| && a[..k] == b[..k] && a[k] != b[k]
    ensures Compare(a, b) == Difference(a[k], b[k])
  {
    CompareSkip(a, b, k);
  }

  /** Where two equally long ranges first differ, or their length. */
  function CommonPrefix(a: seq<byte>, b: seq<byte>): nat
    requires |a| == |b|
  {
    if a == [] || a[0] != b[0] then 0 else 1 + CommonPrefix(a[1..], b[1..])
  }

  /** What a result means: zero exactly for equal ranges, else the first difference decides. */
  lemma {:induction false} CompareMeaning(a: seq<byte>, b: seq<byte>)
    requires |a| == |b|
    ensures Compare(a, b) == 0 <==> a == b
    ensures var k := CommonPrefix(a, b);
            k <= |a| && a[..k] == b[..k] && (k == |a| <==> a == b)
            && (k < |a| ==> a[k] != b[k] && Compare(a, b) == a[k] as int - b[k] as int)
  {
    if a != [] {
      assert a == [a[0]] + a[1..] && b == [b[0]] + b[1..];
      if a[0] == b[0] {
        CompareMeaning(a[1..], b[1..]);
        var k := CommonPrefix(a[1..], b[1..]);
        assert a[..k + 1] == [a[0]] + a[1..][..k] && b[..k + 1] == [b[0]] + b[1..][..k];
      }
    }
  }

  /** A difference in the first parts decides; otherwise the second parts do. */
  lemma {:induction false} CompareConcat(a: seq<byte>, b: seq<byte>, c: seq<byte>, d: seq<byte>)
    requires |a| == |b| && |c| == |d|
    ensures Compare(a + c, b + d) == if a == b then Compare(c, d) else Compare(a, b)
  {
    if a == [] {
      assert a + c == c && b + d == d;
    } else {
      CompareConcat(a[1..], b[1..], c, d);
      assert (a + c)[1..] == a[1..] + c && (b + d)[1..] == b[1..] + d;
      assert a == [a[0]] + a[1..] && b == [b[0]] + b[1..];
    }
  }

  /** The bytes of two words that differ. */
  method CompareWords(a: seq<byte>, b: seq<byte>) returns (r: int)
    requires |a| == |b| == WORD && Word(a) != Word(b)
    ensures r == Compare(a, b)
  {
    WordsEqual(a, b);
    var i := 0;
    while i < WORD
      invariant i <= WORD && a[..i] == b[..i]
    {
      if a[i] != b[i] {
        FirstDifference(a, b, i);
        return Difference(a[i], b[i]);
      }
      i := i + 1;
    }
    assert false;  // two different words have a byte that differs
  }

  function Range(mem: seq<byte>, p: nat, n: nat): seq<byte>
    requires p + n <= |mem|
  {
    mem[p..p + n]
  }

  /** Comparing two ranges, once their first `k` bytes are compared. */
  lemma CompareStep(mem: seq<byte>, p: nat, q: nat, k: nat, n: nat, p': nat, q': nat, n': nat)
    requires k <= n && p + n <= |mem| && q + n <= |mem|
    requires p' == p + k && q' == q + k && n' == n - k
    ensures Compare(Range(mem, p, n), Range(mem, q, n)) ==
            if Range(mem, p, k) == Range(mem, q, k) then Compare(Range(mem, p', n'), Range(mem, q', n'))
            else Compare(Range(mem, p, k), Range(mem, q, k))
  {
    CompareConcat(Range(mem, p, k), Range(mem, q, k), Range(mem, p', n'), Range(mem, q', n'));
    assert Range(mem, p, n) == Range(mem, p, k) + Range(mem, p', n');
    assert Range(mem, q, n) == Range(mem, q, k) + Range(mem, q', n');
  }

  lemma OneByte(mem: seq<byte>, p: nat)
    requires p < |mem|
    ensures Range(mem, p, 1) == [mem[p]]
  {
  }

  /** The bytes left over after the last whole word. */
  method CompareTail(mem: array<byte>, s1: nat, s2: nat, n: nat) returns (r: int)
    requires s1 + n <= mem.Length && s2 + n <= mem.Length
    ensures r == Compare(Range(mem[..], s1, n), Range(mem[..], s2, n))
  {
    ghost var m := mem[..];
    var p: nat, q: nat, left: nat := s1, s2, n;
    while left > 0
      invariant p + left <= mem.Length && q + left <= mem.Length
      invariant Compare(Range(m, s1, n), Range(m, s2, n)) == Compare(Range(m, p, left), Range(m, q, left))
    {
      var p': nat, q': nat, left': nat := p + 1, q + 1, left - 1;
      CompareStep(m, p, q, 1, left, p', q', left');
      OneByte(m, p);
      OneByte(m, q);
      if mem[p] != mem[q] { return Difference(mem[p], mem[q]); }
      p, q, left := p', q', left';
    }
    r := 0;
  }

  method LoadWord(mem: array<byte>, p: nat) returns (bytes: seq<byte>)
    requires p + WORD <= mem.Length
    ensures bytes == Range(mem[..], p, WORD) && |bytes| == WORD
  {
    bytes := mem[p..p + WORD];
  }

  /** Compares word by word, then the tail byte by byte. */
  method Memcmp(mem: array<byte>, s1: nat, s2: nat, n: nat) returns (r: int)
    requires s1 + n <= mem.Length && s2 + n <= mem.Length
    ensures r == Compare(mem[..][s1..s1 + n], mem[..][s2..s2 + n])
  {
    ghost var m := mem[..];
    var p: nat, q: nat, left: nat := s1, s2, n;
    while left >= WORD
      invariant p + left <= mem.Length && q + left <= mem.Length
      invariant Compare(Range(m, s1, n), Range(m, s2, n)) == Compare(Range(m, p, left), Range(m, q, left))
    {
      var a := LoadWord(mem, p);
      var b := LoadWord(mem, q);
      var p': nat, q': nat, left': nat := p + WORD, q + WORD, left - WORD;
      CompareStep(m, p, q, WORD, left, p', q', left');
      WordsEqual(a, b);
      if Word(a) != Word(b) {
        r := CompareWords(a, b);
        return;
      }
      p, q, left := p', q', left';
    }
    r := CompareTail(mem, p, q, left);
  }
}
