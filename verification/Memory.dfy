/** Block moves and fills over byte-addressed memory (lab/lib/string.c). */
module Memory {
  import opened Machine

  // ---------------------------------------------------------------------
  // Simultaneous copies
  // ---------------------------------------------------------------------

  /** Memory after the n bytes at src have been copied, all at once, to dst. */
  function Moved(m: seq<byte>, dst: nat, src: nat, n: nat): (m': seq<byte>)
    requires dst + n <= |m| && src + n <= |m|
    ensures |m'| == |m|
    ensures forall a :: dst <= a < dst + n ==> m'[a] == m[a - dst + src]
    ensures forall a :: 0 <= a < |m| && !(dst <= a < dst + n) ==> m'[a] == m[a]
  {
    m[..dst] + m[src..src + n] + m[dst + n..]
  }

  function Filled(m: seq<byte>, dst: nat, n: nat, c: byte): (m': seq<byte>)
    requires dst + n <= |m|
    ensures |m'| == |m|
    ensures forall a :: 0 <= a < |m| ==> m'[a] == if dst <= a < dst + n then c else m[a]
  {
    m[..dst] + seq(n, _ => c) + m[dst + n..]
  }

  // ---------------------------------------------------------------------
  // Words
  // ---------------------------------------------------------------------

  function ByteOf(w: u32, i: nat): byte {
    if i == 0 then w % 0x100
    else if i == 1 then w / 0x100 % 0x100
    else if i == 2 then w / 0x1_0000 % 0x100
    else w / 0x100_0000 % 0x100
  }

  lemma WordBytes(b0: byte, b1: byte, b2: byte, b3: byte)
    ensures var w := Word(b0, b1, b2, b3);
      ByteOf(w, 0) == b0 && ByteOf(w, 1) == b1 && ByteOf(w, 2) == b2 && ByteOf(w, 3) == b3
  {
    var w, q2 := Word(b0, b1, b2, b3), b2 + 0x100 * b3;
    var q1 := b1 + 0x100 * q2;
    Quotient(0x100, q1, b0, w);
    Quotient(0x1_0000, q2, b0 + 0x100 * b1, w);
    Quotient(0x100_0000, b3, b0 + 0x100 * b1 + 0x1_0000 * b2, w);
    Quotient(0x100, q2, b1, q1);
    Quotient(0x100, b3, b2, q2);
    hide Word;
  }

  lemma Quotient(d: nat, q: nat, r: nat, w: nat)
    requires r < d && (d == 0x100 || d == 0x1_0000 || d == 0x100_0000) && w == d * q + r
    ensures w / d == q && w % d == r
  {
  }

  method LoadWord(mem: array<byte>, a: nat) returns (w: u32)
    requires a + 4 <= mem.Length
    ensures w == Word(mem[a], mem[a + 1], mem[a + 2], mem[a + 3])
  {
    w := Word(mem[a], mem[a + 1], mem[a + 2], mem[a + 3]);
  }

  method StoreWord(mem: array<byte>, a: nat, w: u32)
    requires a + 4 <= mem.Length
    modifies mem
    ensures mem[a] == ByteOf(w, 0) && mem[a + 1] == ByteOf(w, 1)
    ensures mem[a + 2] == ByteOf(w, 2) && mem[a + 3] == ByteOf(w, 3)
    ensures forall k :: 0 <= k < mem.Length && !(a <= k < a + 4) ==> mem[k] == old(mem[k])
  {
    mem[a], mem[a + 1], mem[a + 2], mem[a + 3] := ByteOf(w, 0), ByteOf(w, 1), ByteOf(w, 2), ByteOf(w, 3);
  }

  ghost predicate WordMoved(was: seq<byte>, now: seq<byte>, d: nat, s: nat) {
    |now| == |was| && d + 4 <= |was| && s + 4 <= |was| &&
    (forall a :: d <= a < d + 4 ==> now[a] == was[a - d + s]) &&
    forall a :: 0 <= a < |was| && !(d <= a < d + 4) ==> now[a] == was[a]
  }

  /** One step of movsl: a word is read whole before it is written. */
  method MoveWord(mem: array<byte>, d: nat, s: nat)
    requires d + 4 <= mem.Length && s + 4 <= mem.Length
    modifies mem
    ensures WordMoved(old(mem[..]), mem[..], d, s)
  {
    WordBytes(mem[s], mem[s + 1], mem[s + 2], mem[s + 3]);
    var w := LoadWord(mem, s);
    StoreWord(mem, d, w);
  }

  // ---------------------------------------------------------------------
  // The four string moves
  // ---------------------------------------------------------------------

  /** How far a move from low to high addresses has come: i bytes are in place. */
  ghost predicate ForwardDone(was: seq<byte>, now: seq<byte>, dst: nat, src: nat, i: nat) {
    |now| == |was| && dst + i <= |was| && src + i <= |was| &&
    (forall a :: dst <= a < dst + i ==> now[a] == was[a - dst + src]) &&
    forall a :: 0 <= a < |was| && !(dst <= a < dst + i) ==> now[a] == was[a]
  }

  /** How far a move from high to low addresses has come: the bytes from i on are in place. */
  ghost predicate BackwardDone(was: seq<byte>, now: seq<byte>, dst: nat, src: nat, n: nat, i: nat) {
    |now| == |was| && i <= n && dst + n <= |was| && src + n <= |was| &&
    (forall a :: dst + i <= a < dst + n ==> now[a] == was[a - dst + src]) &&
    forall a :: 0 <= a < |was| && !(dst + i <= a < dst + n) ==> now[a] == was[a]
  }

  /** A forward move is safe unless the destination starts inside the source. */
  predicate ForwardSafe(dst: nat, src: nat, n: nat) {
    dst <= src || src + n <= dst
  }

  /** One byte of movsb. */
  ghost predicate ByteMoved(was: seq<byte>, now: seq<byte>, d: nat, s: nat) {
    |now| == |was| && d < |was| && s < |was| && now == was[d := was[s]]
  }

  lemma ForwardByte(was: seq<byte>, mid: seq<byte>, now: seq<byte>, dst: nat, src: nat, n: nat, i: nat)
    requires ForwardDone(was, mid, dst, src, i) && ByteMoved(mid, now, dst + i, src + i)
    requires ForwardSafe(dst, src, n) && i < n
    ensures ForwardDone(was, now, dst, src, i + 1)
  {
    assert mid[src + i] == was[src + i];
    forall a | dst <= a < dst + i + 1 ensures now[a] == was[a - dst + src] {
      assert a < dst + i ==> now[a] == mid[a];
    }
  }

  lemma BackwardByte(was: seq<byte>, mid: seq<byte>, now: seq<byte>, dst: nat, src: nat, n: nat, i: nat)
    requires BackwardDone(was, mid, dst, src, n, i + 1) && ByteMoved(mid, now, dst + i, src + i)
    requires src < dst
    ensures BackwardDone(was, now, dst, src, n, i)
  {
    assert mid[src + i] == was[src + i];
    forall a | dst + i <= a < dst + n ensures now[a] == was[a - dst + src] {
      assert dst + i < a ==> now[a] == mid[a];
    }
  }

  lemma ForwardStep(was: seq<byte>, mid: seq<byte>, now: seq<byte>, dst: nat, src: nat, n: nat, i: nat)
    requires ForwardDone(was, mid, dst, src, i) && WordMoved(mid, now, dst + i, src + i)
    requires ForwardSafe(dst, src, n) && i + 4 <= n
    ensures ForwardDone(was, now, dst, src, i + 4)
  {
    forall a | 0 <= a < |was|
      ensures now[a] == if dst <= a < dst + i + 4 then was[a - dst + src] else was[a]
    {
      if dst + i <= a < dst + i + 4 {
        var b := a - dst + src;
        assert now[a] == mid[b] && mid[b] == was[b];
      } else {
        assert now[a] == mid[a];
      }
    }
  }

  lemma BackwardStep(was: seq<byte>, mid: seq<byte>, now: seq<byte>, dst: nat, src: nat, n: nat, i: nat)
    requires BackwardDone(was, mid, dst, src, n, i + 4) && WordMoved(mid, now, dst + i, src + i)
    requires src < dst
    ensures BackwardDone(was, now, dst, src, n, i)
  {
    forall a | 0 <= a < |was|
      ensures now[a] == if dst + i <= a < dst + n then was[a - dst + src] else was[a]
    {
      if dst + i <= a < dst + i + 4 {
        var b := a - dst + src;
        assert now[a] == mid[b] && mid[b] == was[b];
      } else {
        assert now[a] == mid[a];
      }
    }
  }

  lemma ForwardEnd(was: seq<byte>, now: seq<byte>, dst: nat, src: nat, n: nat)
    requires ForwardDone(was, now, dst, src, n)
    ensures now == Moved(was, dst, src, n)
  {
  }

  lemma BackwardEnd(was: seq<byte>, now: seq<byte>, dst: nat, src: nat, n: nat)
    requires BackwardDone(was, now, dst, src, n, 0)
    ensures now == Moved(was, dst, src, n)
  {
  }

  method MoveBytesForward(mem: array<byte>, dst: nat, src: nat, n: nat)
    requires dst + n <= mem.Length && src + n <= mem.Length && ForwardSafe(dst, src, n)
    modifies mem
    ensures mem[..] == Moved(old(mem[..]), dst, src, n)
  {
    ghost var was := mem[..];
    var i := 0;
    assert ForwardDone(was, mem[..], dst, src, 0);
    hide ForwardDone, Moved;
    while i < n
      invariant 0 <= i <= n && ForwardDone(was, mem[..], dst, src, i)
    {
      ghost var mid := mem[..];
      mem[dst + i] := mem[src + i];
      ForwardByte(was, mid, mem[..], dst, src, n, i);
      i := i + 1;
    }
    ForwardEnd(was, mem[..], dst, src, n);
  }

  method MoveBytesBackward(mem: array<byte>, dst: nat, src: nat, n: nat)
    requires dst + n <= mem.Length && src + n <= mem.Length && src < dst
    modifies mem
    ensures mem[..] == Moved(old(mem[..]), dst, src, n)
  {
    ghost var was := mem[..];
    var i := n;
    assert BackwardDone(was, mem[..], dst, src, n, n);
    hide BackwardDone, Moved;
    while i > 0
      invariant 0 <= i <= n && BackwardDone(was, mem[..], dst, src, n, i)
    {
      ghost var mid := mem[..];
      i := i - 1;
      mem[dst + i] := mem[src + i];
      BackwardByte(was, mid, mem[..], dst, src, n, i);
    }
    BackwardEnd(was, mem[..], dst, src, n);
  }

  method MoveWordsForward(mem: array<byte>, dst: nat, src: nat, n: nat)
    requires dst + n <= mem.Length && src + n <= mem.Length && ForwardSafe(dst, src, n)
    requires dst % 4 == 0 && src % 4 == 0 && n % 4 == 0
    modifies mem
    ensures mem[..] == Moved(old(mem[..]), dst, src, n)
  {
    ghost var was := mem[..];
    var words, i := n / 4, 0;
    assert ForwardDone(was, mem[..], dst, src, 0);
    hide ForwardDone, WordMoved, Moved;
    while words > 0
      invariant 0 <= words && i + 4 * words == n && ForwardDone(was, mem[..], dst, src, i)
    {
      ghost var mid := mem[..];
      MoveWord(mem, dst + i, src + i);
      ForwardStep(was, mid, mem[..], dst, src, n, i);
      i, words := i + 4, words - 1;
    }
    ForwardEnd(was, mem[..], dst, src, n);
  }

  method MoveWordsBackward(mem: array<byte>, dst: nat, src: nat, n: nat)
    requires dst + n <= mem.Length && src + n <= mem.Length && src < dst
    requires dst % 4 == 0 && src % 4 == 0 && n % 4 == 0
    modifies mem
    ensures mem[..] == Moved(old(mem[..]), dst, src, n)
  {
    ghost var was := mem[..];
    var words, i := n / 4, n;
    assert BackwardDone(was, mem[..], dst, src, n, n);
    hide BackwardDone, WordMoved, Moved;
    while words > 0
      invariant 0 <= words && i == 4 * words <= n && BackwardDone(was, mem[..], dst, src, n, i)
    {
      ghost var mid := mem[..];
      i, words := i - 4, words - 1;
      MoveWord(mem, dst + i, src + i);
      BackwardStep(was, mid, mem[..], dst, src, n, i);
    }
    BackwardEnd(was, mem[..], dst, src, n);
  }

  /** memmove, the assembly version: any overlap, length and alignment. */
  method Memmove(mem: array<byte>, dst: nat, src: nat, n: nat)
    requires dst + n <= mem.Length && src + n <= mem.Length
    modifies mem
    ensures mem[..] == Moved(old(mem[..]), dst, src, n)
  {
    var words := src % 4 == 0 && dst % 4 == 0 && n % 4 == 0;
    if src < dst && src + n > dst {
      if words {
        MoveWordsBackward(mem, dst, src, n);
      } else {
        MoveBytesBackward(mem, dst, src, n);
      }
    } else {
      if words {
        MoveWordsForward(mem, dst, src, n);
      } else {
        MoveBytesForward(mem, dst, src, n);
      }
    }
  }

  /** memmove, the plain C version: the pointers walk and n counts down. */
  method MemmovePlain(mem: array<byte>, dst: nat, src: nat, n0: nat)
    requires dst + n0 <= mem.Length && src + n0 <= mem.Length
    modifies mem
    ensures mem[..] == Moved(old(mem[..]), dst, src, n0)
  {
    var s, d, n := src, dst, n0;
    ghost var was := mem[..];
    assert ForwardDone(was, mem[..], dst, src, 0) && BackwardDone(was, mem[..], dst, src, n, n);
    hide ForwardDone, BackwardDone, Moved;
    if s < d && s + n > d {
      s, d := s + n, d + n;
      while n > 0
        invariant 0 <= n <= n0 && s == src + n && d == dst + n && BackwardDone(was, mem[..], dst, src, n0, n)
      {
        ghost var mid := mem[..];
        n, s, d := n - 1, s - 1, d - 1;
        mem[d] := mem[s];
        BackwardByte(was, mid, mem[..], dst, src, n0, n);
      }
      BackwardEnd(was, mem[..], dst, src, n0);
    } else {
      while n > 0
        invariant 0 <= n <= n0 && s == src + (n0 - n) && d == dst + (n0 - n)
        invariant ForwardDone(was, mem[..], dst, src, n0 - n)
      {
        ghost var mid := mem[..];
        mem[d] := mem[s];
        ForwardByte(was, mid, mem[..], dst, src, n0, n0 - n);
        n, s, d := n - 1, s + 1, d + 1;
      }
      ForwardEnd(was, mem[..], dst, src, n0);
    }
  }

  /** A forward copy byte by byte, whatever the overlap. */
  function CopiedForward(m: seq<byte>, dst: nat, src: nat, n: nat): (m': seq<byte>)
    requires dst + n <= |m| && src + n <= |m|
    ensures |m'| == |m|
  {
    if n == 0 then m
    else
      var m1 := CopiedForward(m, dst, src, n - 1);
      m1[dst + n - 1 := m1[src + n - 1]]
  }

  /** The bytes of [lo, hi) repeat those a distance d below them. */
  ghost predicate Repeats(m: seq<byte>, lo: nat, hi: nat, d: nat)
    requires d <= lo && hi <= |m|
  {
    forall a, b :: lo <= a < hi && b == a - d ==> m[a] == m[b]
  }

  /** When the destination starts inside the source, a forward copy repeats the leading bytes. */
  lemma {:induction false} ForwardRepeats(m: seq<byte>, dst: nat, src: nat, n: nat)
    requires src < dst && dst + n <= |m|
    ensures var m' := CopiedForward(m, dst, src, n);
      Repeats(m', dst, dst + n, dst - src) && m'[..dst] == m[..dst] && m'[dst + n..] == m[dst + n..]
  {
    if n > 0 {
      var d, last := dst - src, dst + n - 1;
      var m1, m' := CopiedForward(m, dst, src, n - 1), CopiedForward(m, dst, src, n);
      assert m' == m1[last := m1[last - d]];
      ForwardRepeats(m, dst, src, n - 1);
      hide CopiedForward;
      forall a, b | dst <= a < dst + n && b == a - d ensures m'[a] == m'[b] {
        assert a < last ==> m'[a] == m1[a] == m1[b];
      }
      assert m'[..dst] == m1[..dst];
      assert m'[dst + n..] == m1[dst + n - 1..][1..];
    }
  }

  /**
   * Why the direction test is there: on overlapping ranges a forward copy agrees with memmove
   * only when the source already repeats with the distance between the two.
   */
  lemma ForwardWrongOnOverlap(m: seq<byte>, dst: nat, src: nat, n: nat)
    requires src < dst < src + n && dst + n <= |m|
    ensures CopiedForward(m, dst, src, n) == Moved(m, dst, src, n) <==> Repeats(m, dst, src + n, dst - src)
  {
    var f, g, d := CopiedForward(m, dst, src, n), Moved(m, dst, src, n), dst - src;
    hide CopiedForward, Moved;
    if f == g {
      ForwardRepeats(m, dst, src, n);
      MovedRepeats(m, dst, src, n);
    }
    if Repeats(m, dst, src + n, d) {
      ForwardAgrees(m, dst, src, n, n);
      hide Repeats;
      ShiftedIsMoved(m, f, dst, src, n);
    }
  }

  /** If the moved block repeats, so did the source. */
  lemma MovedRepeats(m: seq<byte>, dst: nat, src: nat, n: nat)
    requires src < dst < src + n && dst + n <= |m|
    requires Repeats(Moved(m, dst, src, n), dst, dst + n, dst - src)
    ensures Repeats(m, dst, src + n, dst - src)
  {
    var g, d := Moved(m, dst, src, n), dst - src;
    hide Moved;
    forall a, b | dst <= a < src + n && b == a - d ensures m[a] == m[b] {
      assert g[a + d] == m[a + d - dst + src] && g[a] == m[a - dst + src];
      assert g[a + d] == g[a];
    }
  }

  lemma ShiftedIsMoved(m: seq<byte>, f: seq<byte>, dst: nat, src: nat, n: nat)
    requires src < dst && dst + n <= |m| == |f| && Shifted(m, f, dst, n, dst - src)
    requires forall a :: 0 <= a < |m| && !(dst <= a < dst + n) ==> f[a] == m[a]
    ensures f == Moved(m, dst, src, n)
  {
    var g := Moved(m, dst, src, n);
    hide Moved;
    forall a | 0 <= a < |m| ensures f[a] == g[a] {
      if dst <= a < dst + n {
        var b := a - dst + src;
        assert g[a] == m[b] && f[a] == m[b];
      }
    }
  }

  /** The bytes of [dst, dst + i) are those d below them in the original. */
  ghost predicate Shifted(m: seq<byte>, m': seq<byte>, dst: nat, i: nat, d: nat)
    requires d <= dst && dst + i <= |m| == |m'|
  {
    forall a, b :: dst <= a < dst + i && b == a - d ==> m'[a] == m[b]
  }

  lemma {:induction false} ForwardAgrees(m: seq<byte>, dst: nat, src: nat, n: nat, i: nat)
    requires src < dst < src + n && dst + n <= |m| && i <= n
    requires Repeats(m, dst, src + n, dst - src)
    ensures var m' := CopiedForward(m, dst, src, i);
      Shifted(m, m', dst, i, dst - src) && forall a :: 0 <= a < |m| && !(dst <= a < dst + i) ==> m'[a] == m[a]
  {
    if i > 0 {
      var d, last := dst - src, dst + i - 1;
      var m1, m' := CopiedForward(m, dst, src, i - 1), CopiedForward(m, dst, src, i);
      assert m' == m1[last := m1[last - d]];
      ForwardAgrees(m, dst, src, n, i - 1);
      hide CopiedForward;
      assert m1[last - d] == m[last - d] by {
        if dst <= last - d {
          assert m1[last - d] == m[last - d - d] && m[last - d] == m[last - d - d];
        }
      }
      forall a, b | dst <= a < dst + i && b == a - d ensures m'[a] == m[b] {
        assert a < last ==> m'[a] == m1[a];
      }
    }
  }

  // ---------------------------------------------------------------------
  // Fills
  // ---------------------------------------------------------------------

  ghost predicate FillDone(was: seq<byte>, now: seq<byte>, v: nat, i: nat, c: byte) {
    |now| == |was| && v + i <= |was| &&
    forall a :: 0 <= a < |was| ==> now[a] == if v <= a < v + i then c else was[a]
  }

  /** memset, the assembly version: words of four equal bytes when everything is aligned. */
  method Memset(mem: array<byte>, v: nat, c0: int, n: nat)
    requires v + n <= mem.Length
    modifies mem
    ensures mem[..] == Filled(old(mem[..]), v, n, c0 % 256)
  {
    if n == 0 {
      return;
    }
    var c: byte := c0 % 256;
    if v % 4 == 0 && n % 4 == 0 {
      FillWords(mem, v, c, n);
    } else {
      var i := 0;
      while i < n
        invariant 0 <= i <= n && FillDone(old(mem[..]), mem[..], v, i, c)
      {
        mem[v + i] := c;
        i := i + 1;
      }
    }
  }

  method FillWords(mem: array<byte>, v: nat, c: byte, n: nat)
    requires v + n <= mem.Length && n % 4 == 0
    modifies mem
    ensures mem[..] == Filled(old(mem[..]), v, n, c)
  {
    WordBytes(c, c, c, c);
    var w := Word(c, c, c, c);
    hide ByteOf;
    var i := 0;
    while i < n
      invariant 0 <= i <= n && i % 4 == 0 && FillDone(old(mem[..]), mem[..], v, i, c)
    {
      StoreWord(mem, v + i, w);
      i := i + 4;
    }
  }

  /** A 32-bit value stored in an int. */
  function AsInt(n: u32): int {
    if n < 0x8000_0000 then n else n - TWO_32
  }

  /** What the plain C version does: its int counter starts out negative for lengths from 2^31 on. */
  function FilledPlain(m: seq<byte>, v: nat, n: u32, c: byte): seq<byte>
    requires v + n <= |m|
  {
    if AsInt(n) < 0 then m else Filled(m, v, n, c)
  }

  /** memset, the plain C version. C does not define the decrement of the counter that 2^31 leaves behind. */
  method MemsetPlain(mem: array<byte>, v: nat, c: int, n: u32)
    requires v + n <= mem.Length && n != 0x8000_0000
    modifies mem
    ensures mem[..] == FilledPlain(old(mem[..]), v, n, c % 256)
  {
    var p, m := v, AsInt(n);
    m := m - 1;
    while m >= 0
      invariant m < 0 || (n < 0x8000_0000 && m < n)
      invariant p == v + (if n < 0x8000_0000 then n - 1 - m else 0) && -1 <= m + 1 + TWO_32
      invariant n < 0x8000_0000 ==> -1 <= m && FillDone(old(mem[..]), mem[..], v, p - v, c % 256)
      invariant 0x8000_0000 < n ==> mem[..] == old(mem[..])
    {
      mem[p] := c % 256;
      p := p + 1;
      m := m - 1;
    }
  }

  /** The plain C version fills every memory exactly for lengths below 2^31; longer ones it leaves as they are. */
  lemma PlainFillsIff(size: nat, v: nat, n: u32, c: byte)
    requires v + n <= size
    ensures (forall m: seq<byte> :: |m| == size ==> FilledPlain(m, v, n, c) == Filled(m, v, n, c)) <==> n < 0x8000_0000
  {
    if 0x8000_0000 <= n {
      var m: seq<byte> := seq(size, _ => if c == 0 then 1 else 0);
      assert Filled(m, v, n, c)[v] == c != m[v];
      assert FilledPlain(m, v, n, c) != Filled(m, v, n, c);
    }
  }

  // ---------------------------------------------------------------------
  // Laws
  // ---------------------------------------------------------------------

  /** Moving a block through a second place is moving it directly, whatever overlaps; c == a brings it back. */
  lemma MoveThrough(m: seq<byte>, a: nat, b: nat, c: nat, n: nat)
    requires a + n <= |m| && b + n <= |m| && c + n <= |m|
    ensures Moved(Moved(m, b, a, n), c, b, n)[c..c + n] == m[a..a + n]
  {
    var m1 := Moved(m, b, a, n);
    var m2 := Moved(m1, c, b, n);
    var x, y := m2[c..c + n], m[a..a + n];
    forall k | 0 <= k < n ensures x[k] == y[k] {
      assert m2[c + k] == m1[c + k - c + b] && m1[b + k] == m[b + k - b + a];
    }
  }
}
