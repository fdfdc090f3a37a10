/** The console's circular input buffer (lab/kern/console.c). */
module InputRing {
  import opened Machine

  const CONSBUFSIZE := 512

  // ---------------------------------------------------------------------
  // The queue it stands for
  // ---------------------------------------------------------------------

  /** A zero is not stored; a byte that arrives on 511 unread ones makes all of them vanish. */
  function Push(q: seq<byte>, c: byte): seq<byte> {
    if c == 0 then q else if |q| == CONSBUFSIZE - 1 then [] else q + [c]
  }

  function PushAll(q: seq<byte>, cs: seq<byte>): seq<byte> {
    if cs == [] then q else Push(PushAll(q, cs[..|cs| - 1]), cs[|cs| - 1])
  }

  function Pop(q: seq<byte>): seq<byte> {
    if q == [] then q else q[1..]
  }

  ghost predicate Queue(q: seq<byte>) {
    |q| < CONSBUFSIZE && forall i :: 0 <= i < |q| ==> q[i] != 0
  }

  lemma PushQueue(q: seq<byte>, c: byte)
    requires Queue(q)
    ensures Queue(Push(q, c)) && Queue(Pop(q))
  {
  }

  // ---------------------------------------------------------------------
  // The ring
  // ---------------------------------------------------------------------

  class Ring {
    const buf: array<byte>
    var rpos: nat
    var wpos: nat

    constructor ()
      ensures Valid() && Unread() == [] && fresh(buf)
    {
      buf := new byte[CONSBUFSIZE](_ => 0);
      rpos, wpos := 0, 0;
    }

    ghost predicate Valid()
      reads this, buf
    {
      buf.Length == CONSBUFSIZE && rpos < CONSBUFSIZE && wpos < CONSBUFSIZE && Queue(Unread())
    }

    /** The unread bytes, oldest first. */
    ghost function Unread(): seq<byte>
      requires buf.Length == CONSBUFSIZE && rpos < CONSBUFSIZE && wpos < CONSBUFSIZE
      reads this, buf
    {
      if rpos <= wpos then buf[rpos..wpos] else buf[rpos..] + buf[..wpos]
    }

    /** cons_intr: stores what the device hands over before it has no more data. */
    method ConsIntr(data: seq<byte>)
      requires Valid()
      modifies this, buf
      ensures Valid() && Unread() == PushAll(old(Unread()), data)
    {
      ghost var q := Unread();
      var i := 0;
      while i < |data|
        invariant 0 <= i <= |data| && Valid() && Unread() == PushAll(q, data[..i])
      {
        assert data[..i + 1][..i] == data[..i];
        if data[i] != 0 {
          Store(data[i]);
        }
        i := i + 1;
      }
      assert data[..i] == data;
    }

    method Store(c: byte)
      requires Valid() && c != 0
      modifies this`wpos, buf
      ensures Valid() && Unread() == Push(old(Unread()), c)
    {
      ghost var q := Unread();
      PushQueue(q, c);
      hide Queue;
      buf[wpos] := c;
      wpos := wpos + 1;
      if wpos == CONSBUFSIZE {
        wpos := 0;
      }
      assert Unread() == Push(q, c);
    }

    /** cons_getc: polls both devices, then takes the oldest byte, or returns 0. */
    method ConsGetc(serial: seq<byte>, kbd: seq<byte>) returns (c: byte)
      requires Valid()
      modifies this, buf
      ensures Valid()
      ensures var q := PushAll(PushAll(old(Unread()), serial), kbd);
        Unread() == Pop(q) && c == (if q == [] then 0 else q[0]) && (c == 0 <==> q == [])
    {
      ConsIntr(serial);
      ConsIntr(kbd);
      c := Take();
    }

    /** The second half of cons_getc. */
    method Take() returns (c: byte)
      requires Valid()
      modifies this`rpos
      ensures Valid() && Unread() == Pop(old(Unread()))
      ensures c == (if old(Unread()) == [] then 0 else old(Unread())[0]) && (c == 0 <==> old(Unread()) == [])
    {
      ghost var q := Unread();
      PushQueue(q, 0);
      if rpos != wpos {
        assert q != [] && q[0] == buf[rpos] && q[0] != 0;
        hide Queue;
        c := buf[rpos];
        rpos := rpos + 1;
        if rpos == CONSBUFSIZE {
          rpos := 0;
        }
        assert Unread() == q[1..];
        return;
      }
      c := 0;
    }
  }

  // ---------------------------------------------------------------------
  // What is lost and what is kept
  // ---------------------------------------------------------------------

  /** The largest multiple of 512 that is at most n. */
  function Lost(n: nat): (k: nat)
    ensures k <= n
  {
    n / 512 * 512
  }

  /** Without reads in between, exactly a multiple of 512 of the oldest bytes is lost. */
  lemma {:induction false} LostInBlocks(q: seq<byte>, cs: seq<byte>)
    requires Queue(q) && forall i :: 0 <= i < |cs| ==> cs[i] != 0
    ensures var all := q + cs; PushAll(q, cs) == all[Lost(|all|)..]
  {
    if cs == [] {
      assert q + cs == q;
    } else {
      var n := |cs| - 1;
      var most := q + cs[..n];
      assert PushAll(q, cs) == Push(PushAll(q, cs[..n]), cs[n]);
      assert PushAll(q, cs[..n]) == most[Lost(|most|)..] by {
        LostInBlocks(q, cs[..n]);
      }
      hide PushAll, Push, Lost, Queue;
      PushAfterBlocks(most, cs[n]);
      assert q + cs == most + [cs[n]];
    }
  }

  lemma PushAfterBlocks(all: seq<byte>, c: byte)
    requires c != 0
    ensures Push(all[Lost(|all|)..], c) == (all + [c])[Lost(|all| + 1)..]
  {
    BlockStep(|all|);
    hide Lost;
  }

  lemma BlockStep(n: nat)
    ensures Lost(n) <= n < Lost(n) + CONSBUFSIZE
    ensures Lost(n + 1) == if n - Lost(n) == CONSBUFSIZE - 1 then n + 1 else Lost(n)
  {
  }

  datatype Op = Arrive(c: byte) | Fetch

  /** The unread bytes, the bytes fetched so far, and how often the ring has overflowed. */
  datatype History = History(unread: seq<byte>, fetched: seq<byte>, overflows: nat)

  function Step(h: History, op: Op): History {
    match op
    case Fetch =>
      if h.unread == [] then h else h.(unread := Pop(h.unread), fetched := h.fetched + [h.unread[0]])
    case Arrive(c) =>
      h.(unread := Push(h.unread, c),
         overflows := h.overflows + if c != 0 && |h.unread| == CONSBUFSIZE - 1 then 1 else 0)
  }

  function Run(ops: seq<Op>): History {
    if ops == [] then History([], [], 0) else Step(Run(ops[..|ops| - 1]), ops[|ops| - 1])
  }

  /** The bytes that arrived, without the zeros. */
  function Arrived(ops: seq<Op>): seq<byte> {
    if ops == [] then []
    else
      var last := ops[|ops| - 1];
      Arrived(ops[..|ops| - 1]) + if last.Arrive? && last.c != 0 then [last.c] else []
  }

  ghost predicate Accounted(h: History, all: seq<byte>) {
    |h.unread| < 512 && |h.unread| <= |all| && h.unread == all[|all| - |h.unread|..] &&
    |h.fetched| + |h.unread| + 512 * h.overflows == |all| &&
    (h.overflows == 0 <==> h.fetched + h.unread == all)
  }

  lemma FetchAccounted(h: History, all: seq<byte>)
    requires Accounted(h, all)
    ensures Accounted(Step(h, Fetch), all)
  {
    if h.unread != [] {
      assert h.fetched + [h.unread[0]] + h.unread[1..] == h.fetched + h.unread;
    }
  }

  lemma ArriveAccounted(h: History, all: seq<byte>, c: byte)
    requires Accounted(h, all) && c != 0
    ensures Accounted(Step(h, Arrive(c)), all + [c])
  {
    if |h.unread| < CONSBUFSIZE - 1 {
      assert h.fetched + (h.unread + [c]) == h.fetched + h.unread + [c];
      assert h.fetched + h.unread + [c] == all + [c] ==> (h.fetched + h.unread + [c])[..|all|] == all;
    }
  }

  /**
   * Over every interleaving the unread bytes are the latest arrivals, each overflow loses 512
   * bytes, and what was fetched and is still unread is all that arrived exactly without overflow.
   */
  lemma {:induction false} FirstInFirstOut(ops: seq<Op>)
    ensures Accounted(Run(ops), Arrived(ops))
  {
    if ops != [] {
      var n := |ops| - 1;
      FirstInFirstOut(ops[..n]);
      match ops[n] {
        case Fetch => FetchAccounted(Run(ops[..n]), Arrived(ops[..n]));
        case Arrive(c) =>
          if c != 0 {
            ArriveAccounted(Run(ops[..n]), Arrived(ops[..n]), c);
          }
      }
      hide Accounted;
      assert Arrived(ops[..n]) + [] == Arrived(ops[..n]);
    }
  }
}
