/** The STABS symbol lookup of the kernel debugger (lab/kern/kdebug.c). */
module Kdebug {
  import opened Machine

  const N_FUN: byte := 0x24
  const N_SO: byte := 0x64
  const N_SOL: byte := 0x84
  const N_PSYM: byte := 0xa0

  /** One table entry; the fields the lookup never reads are omitted. */
  datatype Stab = Stab(strx: u32, kind: byte, value: u32)

  // ---------------------------------------------------------------------
  // What a search is supposed to find
  // ---------------------------------------------------------------------

  /** The entries of one kind in [lo, hi] are in non-decreasing address order. */
  ghost predicate Sorted(s: seq<Stab>, lo: int, hi: int, kind: byte)
    requires 0 <= lo && hi < |s|
  {
    forall i, j :: lo <= i < j <= hi && s[i].kind == kind && s[j].kind == kind ==> s[i].value <= s[j].value
  }

  ghost predicate Occurs(s: seq<Stab>, lo: int, hi: int, kind: byte)
    requires 0 <= lo && hi < |s|
  {
    exists i :: lo <= i <= hi && s[i].kind == kind
  }

  ghost predicate OccursAtMost(s: seq<Stab>, lo: int, hi: int, kind: byte, addr: int)
    requires 0 <= lo && hi < |s|
  {
    exists i :: lo <= i <= hi && s[i].kind == kind && s[i].value <= addr
  }

  /** The nearest entry of the kind at or below index m, or lo - 1. */
  function LastOf(s: seq<Stab>, lo: int, m: int, kind: byte): (k: int)
    requires 0 <= lo && lo - 1 <= m < |s|
    ensures lo - 1 <= k <= m
    ensures lo <= k ==> s[k].kind == kind
    ensures forall j :: k < j <= m ==> s[j].kind != kind
    decreases m - lo + 1
  {
    if m < lo || s[m].kind == kind then m else LastOf(s, lo, m - 1, kind)
  }

  /** The last entry of the kind whose address is at most addr, or lo - 1. */
  function LastAtMost(s: seq<Stab>, lo: int, hi: int, kind: byte, addr: int): (k: int)
    requires 0 <= lo && lo - 1 <= hi < |s|
    ensures lo - 1 <= k <= hi
    ensures lo <= k ==> s[k].kind == kind && s[k].value <= addr
    ensures forall j :: k < j <= hi && s[j].kind == kind ==> addr < s[j].value
    decreases hi - lo + 1
  {
    if hi < lo || (s[hi].kind == kind && s[hi].value <= addr) then hi
    else LastAtMost(s, lo, hi - 1, kind, addr)
  }

  /** The index just before the next entry of the kind after k, or hi. */
  function RegionEnd(s: seq<Stab>, k: int, hi: int, kind: byte): (e: int)
    requires -1 <= k <= hi < |s|
    ensures k <= e <= hi
    ensures forall j :: k < j <= e ==> s[j].kind != kind
    ensures e < hi ==> s[e + 1].kind == kind
    decreases hi - k
  {
    if k == hi || s[k + 1].kind == kind then k else RegionEnd(s, k + 1, hi, kind)
  }

  // ---------------------------------------------------------------------
  // The search loop as a state machine
  // ---------------------------------------------------------------------

  /** The window, the moving address, the in/out bounds and the any_matches flag. */
  datatype State = State(l: int, r: int, addr: u32, left: int, right: int, any: bool)

  predicate InTable(s: seq<Stab>, st: State) {
    0 <= st.l && st.r < |s|
  }

  function Next(addr: u32): u32 {
    if addr + 1 == TWO_32 then 0 else addr + 1
  }

  function Measure(s: seq<Stab>, st: State): nat
    requires InTable(s, st)
  {
    if st.r < st.l then 0
    else 2 * (st.r - st.l + 1) + (if s[st.l].value == st.addr then 1 else 0)
  }

  /** One iteration of the search loop. */
  function Probe(s: seq<Stab>, kind: byte, st: State): (st': State)
    requires InTable(s, st) && st.l <= st.r
    ensures InTable(s, st') && Measure(s, st') < Measure(s, st)
  {
    var mid := (st.l + st.r) / 2;
    var m := LastOf(s, st.l, mid, kind);
    if m < st.l then st.(l := mid + 1)
    else if s[m].value < st.addr then st.(l := mid + 1, left := m, any := true)
    else if st.addr < s[m].value then st.(r := m - 1, right := m - 1, any := true)
    else st.(l := m, addr := Next(st.addr), left := m, any := true)
  }

  /** The entry a probe compares is the exact address. */
  predicate Hits(s: seq<Stab>, kind: byte, st: State)
    requires InTable(s, st) && st.l <= st.r
  {
    var m := LastOf(s, st.l, (st.l + st.r) / 2, kind);
    st.l <= m && s[m].value == st.addr
  }

  /** The loop: it ends on every table, sorted or not. */
  function Search(s: seq<Stab>, kind: byte, st: State): (e: State)
    requires InTable(s, st)
    ensures InTable(s, e) && e.r < e.l
    decreases Measure(s, st)
  {
    if st.r < st.l then st else Search(s, kind, Probe(s, kind, st))
  }

  function Start(lo: int, hi: int, addr: u32): State {
    State(lo, hi, addr, lo, hi, false)
  }

  /** The state of the search right after its first exact hit, if it has one. */
  function FirstHit(s: seq<Stab>, kind: byte, st: State): (h: Option<State>)
    requires InTable(s, st)
    ensures h.Some? ==> InTable(s, h.value)
    decreases Measure(s, st)
  {
    if st.r < st.l then None
    else if Hits(s, kind, st) then Some(Probe(s, kind, st))
    else FirstHit(s, kind, Probe(s, kind, st))
  }

  /** The state right after the second exact hit, on the moved address. */
  function SecondHit(s: seq<Stab>, kind: byte, st: State): (h: Option<State>)
    requires InTable(s, st)
  {
    var h := FirstHit(s, kind, st);
    if h.None? then None else FirstHit(s, kind, h.value)
  }

  /** The moved address has not wrapped and equals no entry left in the window. */
  ghost predicate Unmatched(s: seq<Stab>, kind: byte, st: State)
    requires InTable(s, st)
  {
    0 < st.addr && forall k :: st.l <= k <= st.r && s[k].kind == kind ==> s[k].value != st.addr
  }

  /**
   * The search is safe when the increment after its first exact hit neither
   * wraps nor turns some entry of the remaining window into a second hit.
   */
  ghost predicate Safe(s: seq<Stab>, kind: byte, st: State)
    requires InTable(s, st)
  {
    var h := FirstHit(s, kind, st);
    h.Some? ==> Unmatched(s, kind, h.value)
  }

  /** On any table the bounds stay ordered, and the flag records whether the kind occurs. */
  ghost predicate Ordered(s: seq<Stab>, lo: int, hi: int, kind: byte, st: State)
    requires 0 <= lo && hi < |s|
  {
    lo <= st.l && st.r <= hi && st.l <= st.r + 1 && st.right == st.r && lo <= st.left <= st.l &&
    if st.any then Occurs(s, lo, hi, kind)
    else st.left == lo && st.r == hi && forall k :: lo <= k < st.l ==> s[k].kind != kind
  }

  /** What the search knows as long as at most one exact hit has moved the address. */
  ghost predicate Narrowed(s: seq<Stab>, lo: int, hi: int, kind: byte, addr: int, l: int, r: int, left: int)
    requires 0 <= lo && hi < |s|
  {
    lo <= l && r <= hi && l <= r + 1 &&
    (forall k :: lo <= k < l && s[k].kind == kind ==> s[k].value <= addr) &&
    (forall k :: r < k <= hi && s[k].kind == kind ==> addr < s[k].value) &&
    (r < hi ==> s[r + 1].kind == kind) &&
    if lo <= left <= hi && s[left].kind == kind && s[left].value <= addr
    then left <= l && forall k :: left < k < l ==> s[k].kind != kind
    else left == lo && forall k :: lo <= k < l ==> s[k].kind != kind
  }

  /** Either no hit yet, or one hit and no entry of the window equals the moved address. */
  ghost predicate Calm(s: seq<Stab>, kind: byte, addr0: u32, st: State)
    requires InTable(s, st)
  {
    if st.addr == addr0 then Safe(s, kind, st) else st.addr == addr0 + 1 && Unmatched(s, kind, st)
  }

  /**
   * After an unsafe hit at w with right bound e: no second hit yet, a second hit at q, or a hit on
   * the topmost address at q, after which the moved address is 0.
   */
  datatype Stray = Once | Twice(q: int) | Wrapped(q: int)

  ghost predicate Strayed(s: seq<Stab>, kind: byte, addr0: u32, w: int, e: int, stray: Stray, st: State)
    requires InTable(s, st)
  {
    0 <= w <= st.left <= st.l <= st.r + 1 && w <= e < |s| && st.r <= e && st.right == st.r &&
    s[w].kind == kind && s[w].value == addr0 &&
    match stray
    case Once =>
      st.addr == addr0 + 1 < TWO_32 &&
      (forall k :: w <= k < st.l && s[k].kind == kind ==> s[k].value <= addr0) &&
      (forall k :: st.r < k <= e && s[k].kind == kind ==> addr0 + 1 < s[k].value)
    case Twice(q) =>
      w < q <= st.left && q <= st.r && s[q].kind == kind && s[q].value == addr0 + 1 &&
      (st.addr == addr0 + 2 || q < st.left)
    case Wrapped(q) =>
      TWO_32 - 2 <= addr0 && st.addr == 0 && st.any && w <= q == st.l == st.left && q <= e &&
      s[q].kind == kind && s[q].value == TWO_32 - 1
  }

  lemma ProbeOrdered(s: seq<Stab>, lo: int, hi: int, kind: byte, st: State)
    requires 0 <= lo && hi < |s| && st.l <= st.r && Ordered(s, lo, hi, kind, st)
    ensures Ordered(s, lo, hi, kind, Probe(s, kind, st))
  {
  }

  lemma NarrowedStep(s: seq<Stab>, lo: int, hi: int, kind: byte, addr0: u32, l: int, r: int, left: int,
                     m: int, mid: int)
    requires 0 <= lo && hi < |s| && Sorted(s, lo, hi, kind)
    requires Narrowed(s, lo, hi, kind, addr0, l, r, left)
    requires l <= mid <= r && m == LastOf(s, l, mid, kind)
    ensures m < l ==> Narrowed(s, lo, hi, kind, addr0, mid + 1, r, left)
    ensures l <= m && s[m].value <= addr0 ==>
      Narrowed(s, lo, hi, kind, addr0, mid + 1, r, m) && Narrowed(s, lo, hi, kind, addr0, m, r, m)
    ensures l <= m && addr0 < s[m].value ==> Narrowed(s, lo, hi, kind, addr0, l, m - 1, left)
  {
  }

  lemma ProbeNarrowed(s: seq<Stab>, lo: int, hi: int, kind: byte, addr0: u32, st: State)
    requires 0 <= lo && hi < |s| && Sorted(s, lo, hi, kind) && InTable(s, st) && st.l <= st.r
    requires Narrowed(s, lo, hi, kind, addr0, st.l, st.r, st.left)
    requires st.addr == addr0 || (st.addr == addr0 + 1 && !Hits(s, kind, st))
    ensures var st' := Probe(s, kind, st); Narrowed(s, lo, hi, kind, addr0, st'.l, st'.r, st'.left)
  {
    hide Narrowed;
    var mid := (st.l + st.r) / 2;
    NarrowedStep(s, lo, hi, kind, addr0, st.l, st.r, st.left, LastOf(s, st.l, mid, kind), mid);
  }

  lemma ProbeCalm(s: seq<Stab>, kind: byte, addr0: u32, st: State)
    requires InTable(s, st) && st.l <= st.r && Calm(s, kind, addr0, st)
    ensures st.addr == addr0 || (st.addr == addr0 + 1 && !Hits(s, kind, st))
    ensures Calm(s, kind, addr0, Probe(s, kind, st))
  {
  }

  lemma {:induction false} SearchOrdered(s: seq<Stab>, lo: int, hi: int, kind: byte, st: State)
    requires 0 <= lo && hi < |s| && Ordered(s, lo, hi, kind, st)
    ensures var e := Search(s, kind, st); Ordered(s, lo, hi, kind, e)
    decreases Measure(s, st)
  {
    if st.l <= st.r {
      ProbeOrdered(s, lo, hi, kind, st);
      SearchOrdered(s, lo, hi, kind, Probe(s, kind, st));
    }
  }

  lemma {:induction false} SearchNarrowed(s: seq<Stab>, lo: int, hi: int, kind: byte, addr0: u32, st: State)
    requires 0 <= lo && hi < |s| && Sorted(s, lo, hi, kind)
    requires Narrowed(s, lo, hi, kind, addr0, st.l, st.r, st.left) && Calm(s, kind, addr0, st)
    ensures var e := Search(s, kind, st); Narrowed(s, lo, hi, kind, addr0, e.l, e.r, e.left)
    decreases Measure(s, st)
  {
    if st.l <= st.r {
      ProbeNarrowed(s, lo, hi, kind, addr0, st);
      ProbeCalm(s, kind, addr0, st);
      SearchNarrowed(s, lo, hi, kind, addr0, Probe(s, kind, st));
    }
  }

  lemma ProbeWrapped(s: seq<Stab>, kind: byte, addr0: u32, w: int, e: int, q: int, st: State)
    requires InTable(s, st) && st.l <= st.r
    requires Strayed(s, kind, addr0, w, e, Wrapped(q), st) && Sorted(s, w, e, kind)
    ensures Strayed(s, kind, addr0, w, e, Wrapped(q), Probe(s, kind, st))
  {
  }

  /** In order: all entries up to one at most a are at most a, if only other kinds follow it. */
  lemma AtMostUpTo(s: seq<Stab>, lo: int, hi: int, kind: byte, m: int, mid: int, a: int)
    requires 0 <= lo <= m <= mid <= hi < |s| && Sorted(s, lo, hi, kind) && s[m].kind == kind && s[m].value <= a
    requires forall k :: m < k <= mid ==> s[k].kind != kind
    ensures forall k :: lo <= k <= mid && s[k].kind == kind ==> s[k].value <= a
  {
    forall k | lo <= k <= mid && s[k].kind == kind ensures s[k].value <= a {
      assert k <= m;
      assert k < m ==> s[k].value <= s[m].value;
    }
  }

  /** In order: all entries from one above a on are above a. */
  lemma AboveFrom(s: seq<Stab>, lo: int, hi: int, kind: byte, m: int, a: int)
    requires 0 <= lo <= m <= hi < |s| && Sorted(s, lo, hi, kind) && s[m].kind == kind && a < s[m].value
    ensures forall k :: m <= k <= hi && s[k].kind == kind ==> a < s[k].value
  {
    forall k | m <= k <= hi && s[k].kind == kind ensures a < s[k].value {
      assert m < k ==> s[m].value <= s[k].value;
    }
  }

  lemma ProbeOnce(s: seq<Stab>, kind: byte, addr0: u32, w: int, e: int, st: State)
    requires InTable(s, st) && st.l <= st.r && !Hits(s, kind, st)
    requires Strayed(s, kind, addr0, w, e, Once, st) && Sorted(s, w, e, kind)
    ensures Strayed(s, kind, addr0, w, e, Once, Probe(s, kind, st))
  {
    var mid := (st.l + st.r) / 2;
    var m := LastOf(s, st.l, mid, kind);
    hide LastOf, Sorted;
    if st.l <= m {
      if s[m].value < st.addr {
        AtMostUpTo(s, w, e, kind, m, mid, addr0);
      } else {
        AboveFrom(s, w, e, kind, m, addr0 + 1);
      }
    }
  }

  lemma ProbeSecond(s: seq<Stab>, kind: byte, addr0: u32, w: int, e: int, st: State)
    requires InTable(s, st) && st.l <= st.r && Hits(s, kind, st)
    requires Strayed(s, kind, addr0, w, e, Once, st)
    ensures var st' := Probe(s, kind, st);
      Strayed(s, kind, addr0, w, e, if addr0 == TWO_32 - 2 then Wrapped(st'.l) else Twice(st'.l), st')
  {
  }

  lemma ProbeTwice(s: seq<Stab>, kind: byte, addr0: u32, w: int, e: int, q: int, st: State)
    requires InTable(s, st) && st.l <= st.r && addr0 != TWO_32 - 2
    requires Strayed(s, kind, addr0, w, e, Twice(q), st) && Sorted(s, w, e, kind)
    ensures Strayed(s, kind, addr0, w, e, Twice(q), Probe(s, kind, st))
  {
  }

  lemma {:induction false} SearchStrayed(s: seq<Stab>, kind: byte, addr0: u32, w: int, e: int, stray: Stray, st: State)
    returns (stray': Stray)
    requires InTable(s, st) && (addr0 == TWO_32 - 2 ==> !stray.Twice?)
    requires Strayed(s, kind, addr0, w, e, stray, st) && 0 <= w <= e < |s| && Sorted(s, w, e, kind)
    ensures Strayed(s, kind, addr0, w, e, stray', Search(s, kind, st))
    ensures addr0 == TWO_32 - 2 ==>
      stray' == if stray.Once? && FirstHit(s, kind, st).Some? then Wrapped(FirstHit(s, kind, st).value.l) else stray
    decreases Measure(s, st)
  {
    stray' := stray;
    if st.l <= st.r {
      match stray {
        case Wrapped(q) => ProbeWrapped(s, kind, addr0, w, e, q, st);
        case Once =>
          if Hits(s, kind, st) {
            ProbeSecond(s, kind, addr0, w, e, st);
            var q := Probe(s, kind, st).l;
            stray' := if addr0 == TWO_32 - 2 then Wrapped(q) else Twice(q);
          } else {
            ProbeOnce(s, kind, addr0, w, e, st);
          }
        case Twice(q) => ProbeTwice(s, kind, addr0, w, e, q, st);
      }
      stray' := SearchStrayed(s, kind, addr0, w, e, stray', Probe(s, kind, st));
    }
  }

  /** An unsafe search reaches its unsafe hit at w and strays from there. */
  lemma {:induction false} UnsafeSearch(s: seq<Stab>, lo: int, hi: int, kind: byte, st: State)
    returns (w: int, e: int, stray: Stray)
    requires 0 <= lo && hi < |s| && Sorted(s, lo, hi, kind)
    requires InTable(s, st) && Narrowed(s, lo, hi, kind, st.addr, st.l, st.r, st.left) && st.right == st.r
    requires !Safe(s, kind, st)
    ensures lo <= w <= e <= hi && Strayed(s, kind, st.addr, w, e, stray, Search(s, kind, st))
    ensures stray.Once? ==> exists k :: w < k <= e && s[k].kind == kind && s[k].value == st.addr + 1
    ensures st.addr == TWO_32 - 2 ==>
      stray == match SecondHit(s, kind, st) { case None => Once case Some(h) => Wrapped(h.l) }
    decreases Measure(s, st)
  {
    hide Strayed, Safe, Search, SecondHit, Narrowed, Sorted, FirstHit;
    UnsafeStep(s, kind, st);
    var st' := Probe(s, kind, st);
    if Hits(s, kind, st) {
      w, e := st'.l, st'.r;
      stray := if st.addr + 1 == TWO_32 then Wrapped(w) else Once;
      StrayedStart(s, kind, st);
      SortedWithin(s, lo, hi, kind, st, w, e);
      stray := SearchStrayed(s, kind, st.addr, w, e, stray, st');
    } else {
      ProbeNarrowed(s, lo, hi, kind, st.addr, st);
      w, e, stray := UnsafeSearch(s, lo, hi, kind, st');
    }
  }

  /** An unsafe search still has an iteration ahead, and goes on from there. */
  lemma UnsafeStep(s: seq<Stab>, kind: byte, st: State)
    requires InTable(s, st) && !Safe(s, kind, st)
    ensures st.l <= st.r && Search(s, kind, st) == Search(s, kind, Probe(s, kind, st))
    ensures Hits(s, kind, st) ==>
      SecondHit(s, kind, st) == FirstHit(s, kind, Probe(s, kind, st)) && !Unmatched(s, kind, Probe(s, kind, st))
    ensures !Hits(s, kind, st) ==> var st' := Probe(s, kind, st);
      SecondHit(s, kind, st) == SecondHit(s, kind, st') && !Safe(s, kind, st') && st'.addr == st.addr
  {
    hide Unmatched;
  }

  /** The window that a hit at w leaves is in order. */
  lemma SortedWithin(s: seq<Stab>, lo: int, hi: int, kind: byte, st: State, w: int, e: int)
    requires 0 <= lo && hi < |s| && Sorted(s, lo, hi, kind) && InTable(s, st) && st.l <= st.r
    requires Narrowed(s, lo, hi, kind, st.addr, st.l, st.r, st.left)
    requires Hits(s, kind, st) && w == Probe(s, kind, st).l && e == Probe(s, kind, st).r
    ensures lo <= w <= e <= hi && Sorted(s, w, e, kind)
  {
  }

  lemma StrayedStart(s: seq<Stab>, kind: byte, st: State)
    requires InTable(s, st) && st.l <= st.r && Hits(s, kind, st) && st.right == st.r
    ensures var st' := Probe(s, kind, st);
      Strayed(s, kind, st.addr, st'.l, st'.r, if st.addr + 1 == TWO_32 then Wrapped(st'.l) else Once, st')
  {
  }

  // ---------------------------------------------------------------------
  // The result of a search
  // ---------------------------------------------------------------------

  datatype Bounds = Bounds(left: int, right: int)

  /** The final scan, from the state in which the loop ends. */
  function Finish(s: seq<Stab>, kind: byte, e: State): Bounds
    requires e.any && e.left <= e.right ==> -1 <= e.left && e.right < |s|
  {
    if !e.any then Bounds(e.left, e.left - 1)
    else if e.right < e.left then Bounds(e.right, e.right)
    else Bounds(LastOf(s, e.left + 1, e.right, kind), e.right)
  }

  /** The in/out bounds on return. */
  function Region(s: seq<Stab>, lo: int, hi: int, kind: byte, addr: u32): Bounds
    requires 0 <= lo && hi < |s|
  {
    SearchEnds(s, lo, hi, kind, addr);
    Finish(s, kind, Search(s, kind, Start(lo, hi, addr)))
  }

  lemma SearchEnds(s: seq<Stab>, lo: int, hi: int, kind: byte, addr: u32)
    requires 0 <= lo && hi < |s|
    ensures var e := Search(s, kind, Start(lo, hi, addr));
      if lo <= hi then Ordered(s, lo, hi, kind, e) else e == Start(lo, hi, addr)
  {
    if lo <= hi {
      hide Search, Occurs;
      SearchOrdered(s, lo, hi, kind, Start(lo, hi, addr));
    }
  }

  /** The two bounds hold the containing entry and the end of its region. */
  ghost predicate Brackets(s: seq<Stab>, lo: int, hi: int, kind: byte, addr: u32, b: Bounds)
    requires 0 <= lo && lo - 1 <= hi < |s|
  {
    lo <= b.left <= hi && b.left == LastAtMost(s, lo, hi, kind, addr) && b.right == RegionEnd(s, b.left, hi, kind)
  }

  /** Any table, sorted or not: the bounds cross exactly when the kind does not occur. */
  lemma RegionCrosses(s: seq<Stab>, lo: int, hi: int, kind: byte, addr: u32)
    requires 0 <= lo && hi < |s|
    ensures var b := Region(s, lo, hi, kind, addr);
      if Occurs(s, lo, hi, kind) then lo - 1 <= b.left <= b.right <= hi else b == Bounds(lo, lo - 1)
  {
    SearchEnds(s, lo, hi, kind, addr);
    hide Search;
  }

  lemma NarrowedEnd(s: seq<Stab>, lo: int, hi: int, kind: byte, addr: u32, l: int, r: int, left: int)
    requires 0 <= lo && hi < |s| && Narrowed(s, lo, hi, kind, addr, l, r, left) && r < l
    ensures OccursAtMost(s, lo, hi, kind, addr) ==>
      left == LastAtMost(s, lo, hi, kind, addr) && lo <= left <= r && r == RegionEnd(s, left, hi, kind)
    ensures !OccursAtMost(s, lo, hi, kind, addr) ==> left == lo && r == RegionEnd(s, lo - 1, hi, kind)
  {
  }

  /**
   * A safe search of a sorted table: the left bound is the last entry at or below the
   * address, the right bound ends its region, and the final scan moves nothing.
   */
  lemma RegionBrackets(s: seq<Stab>, lo: int, hi: int, kind: byte, addr: u32)
    requires 0 <= lo && hi < |s| && Sorted(s, lo, hi, kind) && Safe(s, kind, Start(lo, hi, addr))
    requires OccursAtMost(s, lo, hi, kind, addr)
    ensures var e := Search(s, kind, Start(lo, hi, addr)); Region(s, lo, hi, kind, addr) == Bounds(e.left, e.right)
    ensures Brackets(s, lo, hi, kind, addr, Region(s, lo, hi, kind, addr))
  {
    hide Search;
    var st := Start(lo, hi, addr);
    var e := Search(s, kind, st);
    SearchOrdered(s, lo, hi, kind, st);
    SearchNarrowed(s, lo, hi, kind, addr, st);
    NarrowedEnd(s, lo, hi, kind, addr, e.l, e.r, e.left);
  }

  /** Every entry lies above the address: the left bound stays, unless the first entry is there. */
  lemma RegionAbove(s: seq<Stab>, lo: int, hi: int, kind: byte, addr: u32)
    requires 0 <= lo <= hi < |s| && Sorted(s, lo, hi, kind)
    requires Occurs(s, lo, hi, kind) && !OccursAtMost(s, lo, hi, kind, addr)
    ensures var right := RegionEnd(s, lo - 1, hi, kind);
      Region(s, lo, hi, kind, addr) == Bounds(if right < lo then lo - 1 else lo, right)
  {
    hide Search;
    var st := Start(lo, hi, addr);
    var e := Search(s, kind, st);
    HitOccurs(s, lo, hi, kind, st);
    SearchOrdered(s, lo, hi, kind, st);
    SearchNarrowed(s, lo, hi, kind, addr, st);
    NarrowedEnd(s, lo, hi, kind, addr, e.l, e.r, e.left);
  }

  lemma {:induction false} HitOccurs(s: seq<Stab>, lo: int, hi: int, kind: byte, st: State)
    requires 0 <= lo <= st.l && st.r <= hi < |s|
    ensures FirstHit(s, kind, st).Some? ==> OccursAtMost(s, lo, hi, kind, st.addr)
    decreases Measure(s, st)
  {
    if st.l <= st.r && !Hits(s, kind, st) {
      HitOccurs(s, lo, hi, kind, Probe(s, kind, st));
    }
  }

  /**
   * A second hit on the topmost address stops the search just before that entry, which is the
   * right place when an entry at the address that was asked for stands there.
   */
  predicate LandsBefore(s: seq<Stab>, kind: byte, st: State)
    requires InTable(s, st)
  {
    var h := SecondHit(s, kind, st);
    st.addr == TWO_32 - 2 && h.Some? &&
    var q := h.value.l;
    0 < q <= |s| && s[q - 1].kind == kind && s[q - 1].value == st.addr
  }

  lemma WrappedEnd(s: seq<Stab>, lo: int, hi: int, kind: byte, addr: u32, w: int, q: int)
    requires 0 <= lo <= w < q <= hi < |s| && Sorted(s, lo, hi, kind)
    requires s[w].kind == kind && s[w].value == addr && s[q].kind == kind && addr < s[q].value
    ensures Brackets(s, lo, hi, kind, addr, Bounds(q - 1, q - 1)) <==> s[q - 1].kind == kind && s[q - 1].value == addr
  {
    var k := LastAtMost(s, lo, hi, kind, addr);
    hide LastAtMost;
    assert w <= k < q;
    if s[q - 1].kind == kind && w < q - 1 {
      assert addr <= s[q - 1].value;
    }
  }

  /** What an unsafe search leaves behind, case by case. */
  lemma StrayedRegion(s: seq<Stab>, lo: int, hi: int, kind: byte, addr: u32, w: int, end: int, stray: Stray)
    requires 0 <= lo <= w <= end <= hi < |s| && Sorted(s, lo, hi, kind)
    requires Strayed(s, kind, addr, w, end, stray, Search(s, kind, Start(lo, hi, addr)))
    requires stray.Once? ==> exists k :: w < k <= end && s[k].kind == kind && s[k].value == addr + 1
    requires Ordered(s, lo, hi, kind, Search(s, kind, Start(lo, hi, addr)))
    ensures !stray.Once?
    ensures stray.Twice? ==> !Brackets(s, lo, hi, kind, addr, Region(s, lo, hi, kind, addr))
    ensures stray.Wrapped? ==> Region(s, lo, hi, kind, addr) == Bounds(stray.q - 1, stray.q - 1)
  {
    hide Search;
  }

  /** An unsafe search of a sorted table misses the bracket, unless it lands before its second hit by wrapping. */
  lemma RegionMisses(s: seq<Stab>, lo: int, hi: int, kind: byte, addr: u32)
    requires 0 <= lo <= hi < |s| && Sorted(s, lo, hi, kind) && !Safe(s, kind, Start(lo, hi, addr))
    ensures Brackets(s, lo, hi, kind, addr, Region(s, lo, hi, kind, addr)) <==>
      LandsBefore(s, kind, Start(lo, hi, addr))
  {
    hide Safe, Search, SecondHit, Region, Sorted;
    var st := Start(lo, hi, addr);
    SearchOrdered(s, lo, hi, kind, st);
    var w, end, stray := UnsafeSearch(s, lo, hi, kind, st);
    StrayedRegion(s, lo, hi, kind, addr, w, end, stray);
    if stray.Wrapped? && addr == TWO_32 - 2 {
      hide Brackets;
      WrappedEnd(s, lo, hi, kind, addr, w, stray.q);
    }
  }

  /** When the search of a sorted table brackets an address at or above the first entry, for every address. */
  lemma RegionExact(s: seq<Stab>, lo: int, hi: int, kind: byte, addr: u32)
    requires 0 <= lo <= hi < |s| && Sorted(s, lo, hi, kind) && OccursAtMost(s, lo, hi, kind, addr)
    ensures Brackets(s, lo, hi, kind, addr, Region(s, lo, hi, kind, addr)) <==>
      Safe(s, kind, Start(lo, hi, addr)) || LandsBefore(s, kind, Start(lo, hi, addr))
  {
    hide Sorted, OccursAtMost, Brackets, Safe, LandsBefore, Region;
    if Safe(s, kind, Start(lo, hi, addr)) {
      RegionBrackets(s, lo, hi, kind, addr);
    } else {
      RegionMisses(s, lo, hi, kind, addr);
    }
  }

  /** The file and function entries of a sorted table, searched safely. */
  ghost predicate Searchable(s: seq<Stab>, lo: int, hi: int, kind: byte, addr: u32)
    requires 0 <= lo && hi < |s|
  {
    Sorted(s, lo, hi, kind) && Safe(s, kind, Start(lo, hi, addr))
  }

  /** All three outcomes of a safe search of a sorted table. */
  lemma RegionSearchable(s: seq<Stab>, lo: int, hi: int, kind: byte, addr: u32)
    requires 0 <= lo && lo - 1 <= hi < |s| && Searchable(s, lo, hi, kind, addr)
    ensures var k := LastAtMost(s, lo, hi, kind, addr); var first := RegionEnd(s, lo - 1, hi, kind);
      Region(s, lo, hi, kind, addr) ==
        if lo <= k then Bounds(k, RegionEnd(s, k, hi, kind))
        else if first == hi then Bounds(lo, lo - 1)
        else if first < lo then Bounds(lo - 1, lo - 1)
        else Bounds(lo, first)
  {
    hide Region, Sorted, Safe;
    if OccursAtMost(s, lo, hi, kind, addr) {
      RegionBrackets(s, lo, hi, kind, addr);
    } else if Occurs(s, lo, hi, kind) {
      RegionAbove(s, lo, hi, kind, addr);
    } else {
      RegionCrosses(s, lo, hi, kind, addr);
    }
  }

  /** A table with no entry at addr + 1, or with none at addr, is always searched safely. */
  lemma {:induction false} NoNeighbourIsSafe(s: seq<Stab>, lo: int, hi: int, kind: byte, st: State)
    requires 0 <= lo <= st.l && st.r <= hi < |s|
    requires
      || (forall k :: lo <= k <= hi && s[k].kind == kind ==> s[k].value != st.addr)
      || (st.addr + 1 < TWO_32 && forall k :: lo <= k <= hi && s[k].kind == kind ==> s[k].value != st.addr + 1)
    ensures Safe(s, kind, st)
    decreases Measure(s, st)
  {
    if st.l <= st.r && !Hits(s, kind, st) {
      NoNeighbourIsSafe(s, lo, hi, kind, Probe(s, kind, st));
    }
  }

  /** Two functions one byte apart: looking up the first finds the second. */
  lemma AdjacentFunctionsMiss()
    ensures var s := [Stab(0, N_FUN, 16), Stab(0, N_FUN, 17)];
      Region(s, 0, 1, N_FUN, 16) == Bounds(1, 1) && LastAtMost(s, 0, 1, N_FUN, 16) == 0
  {
    var s := [Stab(0, N_FUN, 16), Stab(0, N_FUN, 17)];
    var a := State(0, 1, 16, 0, 1, false);
    var b := Probe(s, N_FUN, a);
    assert b == State(0, 1, 17, 0, 1, true);
    var c := Probe(s, N_FUN, b);
    assert c == State(1, 1, 17, 0, 1, true);
    var d := Probe(s, N_FUN, c);
    assert d == State(1, 1, 18, 1, 1, true);
    var e := Probe(s, N_FUN, d);
    assert e == State(2, 1, 18, 1, 1, true);
    assert Search(s, N_FUN, a) == Search(s, N_FUN, b) == Search(s, N_FUN, c) == Search(s, N_FUN, d) == e;
    SearchOrdered(s, 0, 1, N_FUN, a);
  }

  /** A third function moves the first probe, and the same lookup succeeds. */
  lemma AdjacentFunctionsMayHit()
    ensures var s := [Stab(0, N_FUN, 16), Stab(0, N_FUN, 17), Stab(0, N_FUN, 18)];
      Brackets(s, 0, 2, N_FUN, 16, Region(s, 0, 2, N_FUN, 16))
  {
    var s := [Stab(0, N_FUN, 16), Stab(0, N_FUN, 17), Stab(0, N_FUN, 18)];
    var a := State(0, 2, 16, 0, 2, false);
    var b := Probe(s, N_FUN, a);
    assert b == State(0, 0, 16, 0, 0, true);
    var h := FirstHit(s, N_FUN, a);
    assert h == FirstHit(s, N_FUN, b) == Some(State(0, 0, 17, 0, 0, true));
    assert s[0].value <= 16;
    RegionBrackets(s, 0, 2, N_FUN, 16);
  }

  /** The same two functions at the top of the address space: the second hit wraps, and the result is right. */
  lemma TopFunctionsHit()
    ensures var s := [Stab(0, N_FUN, TWO_32 - 2), Stab(0, N_FUN, TWO_32 - 1)];
      !Safe(s, N_FUN, Start(0, 1, TWO_32 - 2)) &&
      Brackets(s, 0, 1, N_FUN, TWO_32 - 2, Region(s, 0, 1, N_FUN, TWO_32 - 2))
  {
    var s := [Stab(0, N_FUN, TWO_32 - 2), Stab(0, N_FUN, TWO_32 - 1)];
    var a := Start(0, 1, TWO_32 - 2);
    var b := Probe(s, N_FUN, a);
    assert b == State(0, 1, TWO_32 - 1, 0, 1, true);
    var c := Probe(s, N_FUN, b);
    assert c == State(1, 1, TWO_32 - 1, 0, 1, true);
    var d := Probe(s, N_FUN, c);
    assert d == State(1, 1, 0, 1, 1, true);
    assert FirstHit(s, N_FUN, a) == Some(b) && FirstHit(s, N_FUN, b) == FirstHit(s, N_FUN, c) == Some(d);
    assert s[1].value == b.addr;
    hide Probe, FirstHit, Search;
    RegionMisses(s, 0, 1, N_FUN, TWO_32 - 2);
  }

  /** With an entry of another kind in between, the result is that entry. */
  lemma TopFunctionsMiss()
    ensures var s := [Stab(0, N_FUN, TWO_32 - 2), Stab(0, N_PSYM, 0), Stab(0, N_FUN, TWO_32 - 1)];
      !Brackets(s, 0, 2, N_FUN, TWO_32 - 2, Region(s, 0, 2, N_FUN, TWO_32 - 2))
  {
    var s := [Stab(0, N_FUN, TWO_32 - 2), Stab(0, N_PSYM, 0), Stab(0, N_FUN, TWO_32 - 1)];
    var a := Start(0, 2, TWO_32 - 2);
    var b := Probe(s, N_FUN, a);
    assert b == State(0, 2, TWO_32 - 1, 0, 2, true);
    var c := Probe(s, N_FUN, b);
    assert c == State(2, 2, TWO_32 - 1, 0, 2, true);
    var d := Probe(s, N_FUN, c);
    assert d == State(2, 2, 0, 2, 2, true);
    assert FirstHit(s, N_FUN, a) == Some(b) && FirstHit(s, N_FUN, b) == FirstHit(s, N_FUN, c) == Some(d);
    assert s[2].value == b.addr;
    hide Probe, FirstHit, Search;
    RegionMisses(s, 0, 2, N_FUN, TWO_32 - 2);
  }

  lemma LoopOver(s: seq<Stab>, kind: byte, st: State)
    requires InTable(s, st) && st.r < st.l
    ensures Search(s, kind, st) == st
  {
  }

  lemma SearchStep(s: seq<Stab>, kind: byte, st: State)
    requires InTable(s, st) && st.l <= st.r
    ensures Search(s, kind, st) == Search(s, kind, Probe(s, kind, st))
  {
  }

  /** The loops that step down to an entry of the kind, but not below l - 1. */
  method WalkDown(s: seq<Stab>, l: int, m0: int, kind: byte) returns (m: int)
    requires 0 <= l && l - 1 <= m0 < |s|
    ensures m == LastOf(s, l, m0, kind)
  {
    m := m0;
    while l <= m && s[m].kind != kind
      invariant l - 1 <= m <= m0
      invariant LastOf(s, l, m, kind) == LastOf(s, l, m0, kind)
    {
      m := m - 1;
    }
  }

  /** The C function: the in/out pointers are passed in as lo, hi and returned. */
  method StabBinsearch(s: seq<Stab>, lo: int, hi: int, kind: byte, addr0: u32)
    returns (left: int, right: int)
    requires 0 <= lo && hi < |s|
    ensures Bounds(left, right) == Region(s, lo, hi, kind, addr0)
    ensures right < left <==> !Occurs(s, lo, hi, kind)
    ensures Sorted(s, lo, hi, kind) && OccursAtMost(s, lo, hi, kind, addr0) && Safe(s, kind, Start(lo, hi, addr0))
      ==> Brackets(s, lo, hi, kind, addr0, Bounds(left, right))
  {
    hide Search, Measure, Sorted, Occurs, OccursAtMost, Safe, Brackets, LastOf;
    left, right := lo, hi;
    var l, r, anyMatches := lo, hi, false;
    var addr: u32 := addr0;
    ghost var start := Start(lo, hi, addr0);
    while l <= r
      invariant InTable(s, State(l, r, addr, left, right, anyMatches))
      invariant Search(s, kind, State(l, r, addr, left, right, anyMatches)) == Search(s, kind, start)
      decreases Measure(s, State(l, r, addr, left, right, anyMatches))
    {
      ghost var st := State(l, r, addr, left, right, anyMatches);
      SearchStep(s, kind, st);
      var trueM := (l + r) / 2;
      var m := WalkDown(s, l, trueM, kind);
      if m < l {
        l := trueM + 1;
      } else {
        anyMatches := true;
        if s[m].value < addr {
          left := m;
          l := trueM + 1;
        } else if s[m].value > addr {
          right := m - 1;
          r := m - 1;
        } else {
          left := m;
          l := m;
          addr := Next(addr);
        }
      }
      assert State(l, r, addr, left, right, anyMatches) == Probe(s, kind, st);
    }
    ghost var end := State(l, r, addr, left, right, anyMatches);
    LoopOver(s, kind, end);
    SearchEnds(s, lo, hi, kind, addr0);
    assert Region(s, lo, hi, kind, addr0) == Finish(s, kind, end);
    hide Region, Ordered;
    if !anyMatches {
      right := left - 1;
    } else {
      if right < left {
        left := right;
      } else {
        left := WalkDown(s, left + 1, right, kind);
      }
    }
    RegionCrosses(s, lo, hi, kind, addr0);
    if Sorted(s, lo, hi, kind) && OccursAtMost(s, lo, hi, kind, addr0) && Safe(s, kind, Start(lo, hi, addr0)) {
      RegionBrackets(s, lo, hi, kind, addr0);
    }
  }

  // ---------------------------------------------------------------------
  // The lookup built on two searches
  // ---------------------------------------------------------------------

  const COLON: byte := 58

  /** A name is the "<unknown>" literal or an offset into the string table. */
  datatype Name = Unknown | At(off: nat)

  /** What the lookup reports; OutOfTable stands for reading the entry before the table. */
  datatype Report =
    | NoInfo
    | OutOfTable
    | Info(file: Name, fnName: Name, fnNamelen: nat, fnAddr: u32, fnNarg: nat)

  predicate Terminated(strs: seq<byte>) {
    0 < |strs| && strs[|strs| - 1] == 0
  }

  function NameOf(s: seq<Stab>, strs: seq<byte>, k: int): Name
    requires 0 <= k < |s|
  {
    if s[k].strx < |strs| then At(s[k].strx) else Unknown
  }

  /** The length of a name up to its colon or its NUL; the literal has nine characters. */
  function NameLength(strs: seq<byte>, name: Name): nat
    requires Terminated(strs) && (name.At? ==> name.off < |strs|)
  {
    match name
    case Unknown => 9
    case At(off) => StrFind(strs, off, COLON) - off
  }

  function StrFind(strs: seq<byte>, off: nat, c: byte): (k: nat)
    requires Terminated(strs) && off < |strs|
    ensures off <= k < |strs| && (strs[k] == c || strs[k] == 0)
    ensures forall j :: off <= j < k ==> strs[j] != c && strs[j] != 0
    decreases |strs| - off
  {
    if strs[off] == c || strs[off] == 0 then off else StrFind(strs, off + 1, c)
  }

  predicate NamesFile(e: Stab) {
    e.kind == N_SOL || (e.kind == N_SO && e.value != 0)
  }

  /** The nearest entry that names a source file, not before lo; lo - 1 if there is none. */
  function LastFile(s: seq<Stab>, lo: int, k: int): (f: int)
    requires 0 <= lo && k < |s|
    ensures f <= k && (lo <= f ==> NamesFile(s[f]))
    ensures forall j :: lo <= j <= k && f < j ==> !NamesFile(s[j])
    decreases k - lo + 1
  {
    if k < lo || NamesFile(s[k]) then k else LastFile(s, lo, k - 1)
  }

  /** The length of the run of parameter entries that starts at k and stays below end. */
  function Psyms(s: seq<Stab>, k: int, end: int): (n: nat)
    requires 0 <= k && end < |s|
    ensures k <= end ==> k + n <= end
    ensures end < k ==> n == 0
    ensures forall j :: k <= j < k + n ==> s[j].kind == N_PSYM
    ensures k + n < end ==> s[k + n].kind != N_PSYM
    decreases end - k
  {
    if end <= k || s[k].kind != N_PSYM then 0 else 1 + Psyms(s, k + 1, end)
  }

  function FileOf(s: seq<Stab>, strs: seq<byte>, lo: int, k: int): Name
    requires 0 <= lo && k < |s|
  {
    var f := LastFile(s, lo, k);
    if lo <= f then NameOf(s, strs, f) else Unknown
  }

  /** The report for a function entry at fn whose region ends at end, in the file that starts at lfile. */
  function FunctionReport(s: seq<Stab>, strs: seq<byte>, lfile: int, fn: int, end: int): Report
    requires Terminated(strs) && 0 <= lfile && 0 <= fn <= end < |s|
  {
    var name := NameOf(s, strs, fn);
    Info(FileOf(s, strs, lfile, fn), name, NameLength(strs, name), s[fn].value, Psyms(s, fn + 1, end))
  }

  /** The report for an address with no function entry in its file. */
  function FileReport(s: seq<Stab>, strs: seq<byte>, addr: u32, lfile: int): Report
    requires Terminated(strs) && 0 <= lfile < |s|
  {
    Info(FileOf(s, strs, lfile, lfile), Unknown, 9, addr, 0)
  }

  /** The lookup on any table, in terms of the regions the two searches return. */
  function Lookup(s: seq<Stab>, strs: seq<byte>, addr: u32): Report
  {
    if !Terminated(strs) then NoInfo else
    RegionCrosses(s, 0, |s| - 1, N_SO, addr);
    var Bounds(lfile, rfile) := Region(s, 0, |s| - 1, N_SO, addr);
    if lfile == 0 then NoInfo
    else if lfile < 0 then OutOfTable
    else
      RegionCrosses(s, lfile, rfile, N_FUN, addr);
      var Bounds(lfun, rfun) := Region(s, lfile, rfile, N_FUN, addr);
      if lfun <= rfun then FunctionReport(s, strs, lfile, lfun, rfun) else FileReport(s, strs, addr, lfile)
  }

  /**
   * The file of a sorted table is the last file entry at or below the address, unless
   * that is the very first entry. An address below a leading file entry leaves the table.
   */
  lemma LookupFile(s: seq<Stab>, strs: seq<byte>, addr: u32)
    requires Terminated(strs) && Searchable(s, 0, |s| - 1, N_SO, addr)
    ensures var lfile := LastAtMost(s, 0, |s| - 1, N_SO, addr);
      (Lookup(s, strs, addr) == OutOfTable <==> 0 < |s| && s[0].kind == N_SO && lfile < 0) &&
      (Lookup(s, strs, addr) == NoInfo <==> lfile == 0 || (lfile < 0 && (|s| == 0 || s[0].kind != N_SO))) &&
      (0 < lfile ==> Region(s, 0, |s| - 1, N_SO, addr) == Bounds(lfile, RegionEnd(s, lfile, |s| - 1, N_SO)))
  {
    hide LastAtMost, Region, Searchable;
    RegionSearchable(s, 0, |s| - 1, N_SO, addr);
  }

  /**
   * The function of a sorted table is the last function entry of the file at or below the
   * address. When the file has function entries but all lie above the address, the lookup
   * reports the file entry itself as the function.
   */
  lemma LookupFunction(s: seq<Stab>, strs: seq<byte>, addr: u32)
    requires Terminated(strs) && Searchable(s, 0, |s| - 1, N_SO, addr)
    requires 0 < LastAtMost(s, 0, |s| - 1, N_SO, addr)
    requires var lfile := LastAtMost(s, 0, |s| - 1, N_SO, addr);
      Searchable(s, lfile, RegionEnd(s, lfile, |s| - 1, N_SO), N_FUN, addr)
    ensures var lfile := LastAtMost(s, 0, |s| - 1, N_SO, addr);
      var rfile := RegionEnd(s, lfile, |s| - 1, N_SO);
      var fn := LastAtMost(s, lfile, rfile, N_FUN, addr);
      Lookup(s, strs, addr) ==
        if lfile <= fn then FunctionReport(s, strs, lfile, fn, RegionEnd(s, fn, rfile, N_FUN))
        else if Occurs(s, lfile, rfile, N_FUN)
        then FunctionReport(s, strs, lfile, lfile, RegionEnd(s, lfile - 1, rfile, N_FUN))
        else FileReport(s, strs, addr, lfile)
  {
    hide Searchable, Region, FunctionReport, FileReport;
    LookupFile(s, strs, addr);
    var lfile := LastAtMost(s, 0, |s| - 1, N_SO, addr);
    var rfile := RegionEnd(s, lfile, |s| - 1, N_SO);
    RegionSearchable(s, lfile, rfile, N_FUN, addr);
  }

  // ---------------------------------------------------------------------
  // What the answers are, in terms of the entries and the string table
  // ---------------------------------------------------------------------

  /** The name is the string at an offset, and the length reaches its first colon or its NUL. */
  ghost predicate NamedBy(strs: seq<byte>, strx: u32, name: Name, len: nat) {
    if strx < |strs| then
      name == At(strx) && strx + len < |strs| && (strs[strx + len] == 58 || strs[strx + len] == 0) &&
      forall j :: strx <= j < strx + len ==> strs[j] != 58 && strs[j] != 0
    else name == Unknown && len == 9
  }

  /** An N_SOL entry, or an N_SO entry that does not end a file. */
  ghost predicate GivesFile(e: Stab) {
    e.kind == 0x84 || (e.kind == 0x64 && e.value != 0)
  }

  ghost predicate NearestFile(s: seq<Stab>, f: int, k: int)
    requires 0 <= f <= k < |s|
  {
    GivesFile(s[f]) && forall j :: f < j <= k ==> !GivesFile(s[j])
  }

  /** The file is that of the nearest entry between lo and k that gives one. */
  ghost predicate FiledBy(s: seq<Stab>, strs: seq<byte>, lo: int, k: int, file: Name)
    requires 0 <= lo && k < |s|
  {
    if forall j :: lo <= j <= k ==> !GivesFile(s[j]) then file == Unknown
    else exists f :: lo <= f <= k && NearestFile(s, f, k) &&
                       file == if s[f].strx < |strs| then At(s[f].strx) else Unknown
  }

  /** The parameters are the N_PSYM entries right after fn, as far as they go below end. */
  ghost predicate CountedBy(s: seq<Stab>, fn: int, end: int, narg: nat)
    requires 0 <= fn <= end < |s|
  {
    fn + narg <= end && (narg == 0 || fn + narg < end) &&
    (forall j :: fn < j <= fn + narg ==> s[j].kind == 0xA0) &&
    (fn + 1 + narg < end ==> s[fn + 1 + narg].kind != 0xA0)
  }

  /** Index k holds an entry of the kind at or below addr, and no such entry of [lo, hi] lies in between. */
  ghost predicate GreatestAtMost(s: seq<Stab>, lo: int, hi: int, kind: int, addr: int, k: int)
    requires 0 <= lo && hi < |s|
  {
    lo <= k <= hi && s[k].kind == kind && s[k].value <= addr &&
    forall j :: lo <= j <= hi && s[j].kind == kind ==> s[j].value <= s[k].value || addr < s[j].value
  }

  /** No entry of the kind follows k up to e, where the next one stands or the range ends. */
  ghost predicate EndsBefore(s: seq<Stab>, k: int, e: int, hi: int, kind: int)
    requires -1 <= k && hi < |s|
  {
    k <= e <= hi && (forall j :: k < j <= e ==> s[j].kind != kind) && (e < hi ==> s[e + 1].kind == kind)
  }

  lemma FunctionAnswer(s: seq<Stab>, strs: seq<byte>, lfile: int, fn: int, end: int)
    requires Terminated(strs) && 0 <= lfile && 0 <= fn <= end < |s|
    ensures var r := FunctionReport(s, strs, lfile, fn, end);
      r.Info? && r.fnAddr == s[fn].value && NamedBy(strs, s[fn].strx, r.fnName, r.fnNamelen) &&
      FiledBy(s, strs, lfile, fn, r.file) && CountedBy(s, fn, end, r.fnNarg)
  {
    FileAnswer(s, strs, lfile, fn);
    hide FiledBy, FileOf;
  }

  lemma FileAnswer(s: seq<Stab>, strs: seq<byte>, lo: int, k: int)
    requires 0 <= lo && k < |s|
    ensures FiledBy(s, strs, lo, k, FileOf(s, strs, lo, k))
  {
    var f := LastFile(s, lo, k);
    if lo <= f {
      assert NearestFile(s, f, k) && GivesFile(s[f]);
    }
  }

  lemma GreatestIs(s: seq<Stab>, lo: int, hi: int, kind: byte, addr: u32)
    requires 0 <= lo && lo - 1 <= hi < |s| && Sorted(s, lo, hi, kind)
    ensures var k := LastAtMost(s, lo, hi, kind, addr);
      lo <= k ==> GreatestAtMost(s, lo, hi, kind, addr, k)
    ensures LastAtMost(s, lo, hi, kind, addr) < lo ==>
      forall j :: lo <= j <= hi && s[j].kind == kind ==> addr < s[j].value
  {
    var k := LastAtMost(s, lo, hi, kind, addr);
    hide LastAtMost;
    if lo <= k {
      forall j | lo <= j <= hi && s[j].kind == kind ensures s[j].value <= s[k].value || addr < s[j].value {
        assert j < k ==> s[j].value <= s[k].value;
      }
    }
  }

  /** The function the report is about, and where its region ends. */
  datatype Answer = InFunction(fn: int, end: int) | BeforeFunctions(end: int) | NoFunctions

  lemma NoFunctionAnswer(s: seq<Stab>, strs: seq<byte>, addr: u32, lfile: int)
    requires Terminated(strs) && 0 <= lfile < |s|
    ensures var r := FileReport(s, strs, addr, lfile);
      r.Info? && r.fnAddr == addr && r.fnName == Unknown && r.fnNamelen == 9 && r.fnNarg == 0 &&
      FiledBy(s, strs, lfile, lfile, r.file)
  {
    FileAnswer(s, strs, lfile, lfile);
    hide FiledBy, FileOf;
  }

  /** The report for an address of the file between lfile and rfile. */
  ghost predicate Answers(s: seq<Stab>, strs: seq<byte>, addr: u32, lfile: int, rfile: int, answer: Answer, r: Report)
    requires 0 <= lfile <= rfile < |s|
  {
    r.Info? &&
    match answer
    case InFunction(fn, end) =>
      GreatestAtMost(s, lfile, rfile, 0x24, addr, fn) && EndsBefore(s, fn, end, rfile, 0x24) &&
      r.fnAddr == s[fn].value <= addr && Described(s, strs, lfile, fn, end, r)
    case BeforeFunctions(end) =>
      (forall j :: lfile <= j <= rfile && s[j].kind == 0x24 ==> addr < s[j].value) &&
      end < rfile && EndsBefore(s, lfile, end, rfile, 0x24) &&
      r.fnAddr == s[lfile].value && Described(s, strs, lfile, lfile, end, r)
    case NoFunctions =>
      (forall j :: lfile <= j <= rfile ==> s[j].kind != 0x24) && r.fnAddr == addr &&
      r.fnName == Unknown && r.fnNamelen == 9 && r.fnNarg == 0 && FiledBy(s, strs, lfile, lfile, r.file)
  }

  /** The name, the file and the parameters of the entry at fn. */
  ghost predicate Described(s: seq<Stab>, strs: seq<byte>, lfile: int, fn: int, end: int, r: Report)
    requires 0 <= lfile && 0 <= fn <= end < |s| && r.Info?
  {
    NamedBy(strs, s[fn].strx, r.fnName, r.fnNamelen) && FiledBy(s, strs, lfile, fn, r.file) &&
    CountedBy(s, fn, end, r.fnNarg)
  }

  lemma AnswerIn(s: seq<Stab>, strs: seq<byte>, addr: u32, lfile: int, rfile: int)
    requires Terminated(strs) && 0 <= lfile <= rfile < |s| && Sorted(s, lfile, rfile, N_FUN)
    requires lfile <= LastAtMost(s, lfile, rfile, N_FUN, addr)
    ensures var fn := LastAtMost(s, lfile, rfile, N_FUN, addr);
      var end := RegionEnd(s, fn, rfile, N_FUN);
      Answers(s, strs, addr, lfile, rfile, InFunction(fn, end), FunctionReport(s, strs, lfile, fn, end))
  {
    hide LastAtMost, RegionEnd, Sorted, GreatestAtMost, NamedBy, FiledBy, CountedBy, FunctionReport;
    var fn := LastAtMost(s, lfile, rfile, N_FUN, addr);
    GreatestIs(s, lfile, rfile, N_FUN, addr);
    FunctionAnswer(s, strs, lfile, fn, RegionEnd(s, fn, rfile, N_FUN));
  }

  lemma AnswerBefore(s: seq<Stab>, strs: seq<byte>, addr: u32, lfile: int, rfile: int)
    requires Terminated(strs) && 0 <= lfile <= rfile < |s| && s[lfile].kind == N_SO
    requires LastAtMost(s, lfile, rfile, N_FUN, addr) < lfile && Occurs(s, lfile, rfile, N_FUN)
    ensures var end := RegionEnd(s, lfile - 1, rfile, N_FUN);
      lfile <= end &&
      Answers(s, strs, addr, lfile, rfile, BeforeFunctions(end), FunctionReport(s, strs, lfile, lfile, end))
  {
    hide LastAtMost, RegionEnd, Occurs, NamedBy, FiledBy, CountedBy, FunctionReport;
    BeforeEnd(s, lfile, rfile);
    FunctionAnswer(s, strs, lfile, lfile, RegionEnd(s, lfile - 1, rfile, N_FUN));
  }

  lemma BeforeEnd(s: seq<Stab>, lfile: int, rfile: int)
    requires 0 <= lfile <= rfile < |s| && s[lfile].kind == N_SO && Occurs(s, lfile, rfile, N_FUN)
    ensures var end := RegionEnd(s, lfile - 1, rfile, N_FUN);
      lfile <= end < rfile && EndsBefore(s, lfile, end, rfile, N_FUN)
  {
    hide RegionEnd;
  }

  lemma AnswerNone(s: seq<Stab>, strs: seq<byte>, addr: u32, lfile: int, rfile: int)
    requires Terminated(strs) && 0 <= lfile <= rfile < |s| && !Occurs(s, lfile, rfile, N_FUN)
    ensures Answers(s, strs, addr, lfile, rfile, NoFunctions, FileReport(s, strs, addr, lfile))
  {
    NoFunctionAnswer(s, strs, addr, lfile);
    hide FiledBy, FileReport;
  }

  lemma FileAnswers(s: seq<Stab>, strs: seq<byte>, addr: u32, lfile: int, rfile: int) returns (answer: Answer)
    requires Terminated(strs) && 0 <= lfile <= rfile < |s| && Sorted(s, lfile, rfile, N_FUN) && s[lfile].kind == N_SO
    ensures var fn := LastAtMost(s, lfile, rfile, N_FUN, addr);
      Answers(s, strs, addr, lfile, rfile, answer,
        if lfile <= fn then FunctionReport(s, strs, lfile, fn, RegionEnd(s, fn, rfile, N_FUN))
        else if Occurs(s, lfile, rfile, N_FUN)
        then FunctionReport(s, strs, lfile, lfile, RegionEnd(s, lfile - 1, rfile, N_FUN))
        else FileReport(s, strs, addr, lfile))
  {
    hide *;
    var fn := LastAtMost(s, lfile, rfile, N_FUN, addr);
    if lfile <= fn {
      answer := InFunction(fn, RegionEnd(s, fn, rfile, N_FUN));
      AnswerIn(s, strs, addr, lfile, rfile);
    } else if Occurs(s, lfile, rfile, N_FUN) {
      answer := BeforeFunctions(RegionEnd(s, lfile - 1, rfile, N_FUN));
      AnswerBefore(s, strs, addr, lfile, rfile);
    } else {
      answer := NoFunctions;
      AnswerNone(s, strs, addr, lfile, rfile);
    }
  }

  /**
   * What the lookup answers, without its searches: the file entry with the greatest address at
   * or below addr; in its file the function with the greatest address at or below addr, its name
   * up to the colon, the nearest file name and its parameters. When all functions of the file lie
   * above addr, the file entry stands in for the function, and without any function the address does.
   */
  lemma LookupAnswers(s: seq<Stab>, strs: seq<byte>, addr: u32) returns (lfile: int, rfile: int, answer: Answer)
    requires Terminated(strs) && Searchable(s, 0, |s| - 1, N_SO, addr)
    requires 0 < LastAtMost(s, 0, |s| - 1, N_SO, addr)
    requires var file := LastAtMost(s, 0, |s| - 1, N_SO, addr);
      Searchable(s, file, RegionEnd(s, file, |s| - 1, N_SO), N_FUN, addr)
    ensures GreatestAtMost(s, 0, |s| - 1, 0x64, addr, lfile) && EndsBefore(s, lfile, rfile, |s| - 1, 0x64)
    ensures Answers(s, strs, addr, lfile, rfile, answer, Lookup(s, strs, addr))
  {
    hide *;
    lfile := LastAtMost(s, 0, |s| - 1, N_SO, addr);
    rfile := RegionEnd(s, lfile, |s| - 1, N_SO);
    FileEntry(s, addr);
    LookupFunction(s, strs, addr);
    answer := FileAnswers(s, strs, addr, lfile, rfile);
  }

  lemma FileEntry(s: seq<Stab>, addr: u32)
    requires Searchable(s, 0, |s| - 1, N_SO, addr) && 0 < LastAtMost(s, 0, |s| - 1, N_SO, addr)
    ensures var lfile := LastAtMost(s, 0, |s| - 1, N_SO, addr);
      var rfile := RegionEnd(s, lfile, |s| - 1, N_SO);
      GreatestAtMost(s, 0, |s| - 1, 0x64, addr, lfile) && EndsBefore(s, lfile, rfile, |s| - 1, 0x64) &&
      s[lfile].kind == N_SO &&
      (Searchable(s, lfile, rfile, N_FUN, addr) ==> Sorted(s, lfile, rfile, N_FUN))
  {
    GreatestIs(s, 0, |s| - 1, N_SO, addr);
    hide Safe, Sorted, LastAtMost, RegionEnd, GreatestAtMost;
  }

  class EipDebugInfo {
    var file: Name
    var line: int
    var fnName: Name
    var fnNamelen: nat
    var fnAddr: u32
    var fnNarg: nat

    constructor () {
    }
  }

  method FindInString(strs: seq<byte>, off: nat, c: byte) returns (k: nat)
    requires Terminated(strs) && off < |strs|
    ensures k == StrFind(strs, off, c)
  {
    k := off;
    while strs[k] != 0
      invariant off <= k < |strs| && StrFind(strs, k, c) == StrFind(strs, off, c)
      decreases |strs| - k
    {
      if strs[k] == c {
        break;
      }
      k := k + 1;
    }
  }

  /** The backward scan for a file name, lines 189 to 192. */
  method ScanForFile(stabs: seq<Stab>, lfile: int, lline0: int) returns (lline: int)
    requires 0 <= lfile && lline0 < |stabs|
    ensures lline == LastFile(stabs, lfile, lline0)
  {
    lline := lline0;
    while lfile <= lline && stabs[lline].kind != N_SOL && (stabs[lline].kind != N_SO || stabs[lline].value == 0)
      invariant lline <= lline0
      invariant LastFile(stabs, lfile, lline) == LastFile(stabs, lfile, lline0)
    {
      lline := lline - 1;
    }
  }

  /** The parameter count, lines 199 to 203. */
  method CountParameters(stabs: seq<Stab>, start: int, rfun: int) returns (narg: nat)
    requires 0 <= start <= rfun < |stabs|
    ensures narg == Psyms(stabs, start, rfun)
  {
    narg := 0;
    var lline := start;
    while lline < rfun && stabs[lline].kind == N_PSYM
      invariant start <= lline <= rfun
      invariant narg + Psyms(stabs, lline, rfun) == Psyms(stabs, start, rfun)
    {
      narg := narg + 1;
      lline := lline + 1;
    }
  }

  /** The part of the C function after both searches. */
  method FillIn(stabs: seq<Stab>, strs: seq<byte>, addr0: u32, lfile: int, lfun: int, rfun: int, info: EipDebugInfo)
    requires Terminated(strs) && 0 <= lfile < |stabs| && (lfun <= rfun ==> 0 <= lfun && rfun < |stabs|)
    requires info.file == Unknown && info.fnName == Unknown && info.fnNamelen == 9 && info.fnNarg == 0
    modifies info
    ensures Info(info.file, info.fnName, info.fnNamelen, info.fnAddr, info.fnNarg) ==
      if lfun <= rfun then FunctionReport(stabs, strs, lfile, lfun, rfun) else FileReport(stabs, strs, addr0, lfile)
    ensures info.line == old(info.line)
  {
    hide StrFind, LastFile, Psyms;
    var addr: int := addr0;
    var lline: int;
    if lfun <= rfun {
      if stabs[lfun].strx < |strs| {
        info.fnName := At(stabs[lfun].strx);
      }
      info.fnAddr := stabs[lfun].value;
      addr := (addr - info.fnAddr) % TWO_32;
      lline := lfun;
    } else {
      info.fnAddr := addr;
      lline := lfile;
    }
    if info.fnName.At? {
      var colon := FindInString(strs, info.fnName.off, COLON);
      info.fnNamelen := colon - info.fnName.off;
    }

    lline := ScanForFile(stabs, lfile, lline);
    if lfile <= lline && stabs[lline].strx < |strs| {
      info.file := At(stabs[lline].strx);
    }
    if lfun < rfun {
      info.fnNarg := CountParameters(stabs, lfun + 1, rfun);
    }
  }

  /**
   * The C function, for kernel addresses. It returns 0 or -1; fault stands for the
   * read before the table. The info fields are filled in even when it returns -1.
   */
  method DebuginfoEip(stabs: seq<Stab>, strs: seq<byte>, addr0: u32, info: EipDebugInfo)
    returns (code: int, fault: bool)
    modifies info
    ensures fault <==> Lookup(stabs, strs, addr0) == OutOfTable
    ensures !fault ==> (code == 0 <==> Lookup(stabs, strs, addr0).Info?) && (code == 0 || code == -1)
    ensures code == 0 && !fault ==>
      Lookup(stabs, strs, addr0) == Info(info.file, info.fnName, info.fnNamelen, info.fnAddr, info.fnNarg)
    ensures code != 0 || fault ==>
      info.file == Unknown && info.fnName == Unknown && info.fnNamelen == 9 && info.fnAddr == addr0 && info.fnNarg == 0
    ensures info.line == 0
  {
    hide Region, Occurs, OccursAtMost, Sorted, Safe, Brackets;
    info.file, info.line := Unknown, 0;
    info.fnName, info.fnNamelen := Unknown, 9;
    info.fnAddr, info.fnNarg := addr0, 0;
    code, fault := -1, false;

    if |strs| <= 0 || strs[|strs| - 1] != 0 {
      return;
    }

    var lfile, rfile := StabBinsearch(stabs, 0, |stabs| - 1, N_SO, addr0);
    RegionCrosses(stabs, 0, |stabs| - 1, N_SO, addr0);
    if lfile == 0 {
      return;
    }
    if lfile < 0 {
      fault := true;
      return;
    }

    var lfun, rfun := StabBinsearch(stabs, lfile, rfile, N_FUN, addr0);
    RegionCrosses(stabs, lfile, rfile, N_FUN, addr0);
    FillIn(stabs, strs, addr0, lfile, lfun, rfun, info);
    code := 0;
  }
}
