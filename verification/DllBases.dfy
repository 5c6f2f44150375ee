/**
 Reserving base addresses for DLLs (dll_loader.c): a cursor advanced by a
 compare-and-swap loop before a DLL is mapped, and by a second atomic add once its
 size is known.

 Any number of loaders run in any interleaving; a schedule is the list of their
 atomic actions, and `Run` plays it from the initial cursor. wordSize is 2^32 or
 2^64, the range of a host pointer.
 */
module DllBases {
  import opened Bytes
  import opened Pe

  const DLL_ALLOC_BASE := 0x6000_0000

  // A loader between DLLs, one that has read the cursor, or one that holds grant g.
  datatype Loader = Ready | Read(expected: nat) | Holding(g: nat)

  // A reserved base: still being mapped, or settled with the size of the mapped DLL
  // (None: the mapping failed).
  datatype Grant = Pending(base: nat) | Settled(base: nat, size: Option<u32>)

  datatype State = State(cursor: nat, loaders: seq<Loader>, grants: seq<Grant>)

  // One atomic action of loader t: read the cursor, try to swap it, or finish with the
  // size of the mapped DLL (None: the mapping failed).
  datatype Action = Load(t: nat) | Swap(t: nat) | Finish(t: nat, size: Option<u32>)

  predicate WordSize(w: nat) {
    w == U32 || w == U64
  }

  // The cursor moved on by n, in pointer arithmetic.
  function Advance(cursor: nat, n: nat, wordSize: nat): nat
    requires wordSize > 0
  {
    (cursor + n) % wordSize
  }

  lemma {:induction false} AdvanceTwice(start: nat, m: nat, n: nat, wordSize: nat)
    requires wordSize > 0
    ensures Advance(Advance(start, m, wordSize), n, wordSize) == Advance(start, m + n, wordSize)
  {
    SumMod(start + m, n, wordSize);
  }

  // A cursor value rounded up to a page, in pointer arithmetic.
  function RoundUp(v: nat, wordSize: nat): nat
    requires wordSize > 0
  {
    (v + PAGE - 1) % wordSize / PAGE * PAGE
  }

  // SizeOfImage rounded up in 32-bit arithmetic: a size in the last page wraps to 0.
  function RoundedSize(size: u32): nat {
    (size + PAGE - 1) % U32 / PAGE * PAGE
  }

  // What a finished DLL has taken from the cursor: one page, or its rounded size if larger.
  function Charge(size: Option<u32>): nat {
    if size.Some? && RoundedSize(size.value) > PAGE then RoundedSize(size.value) else PAGE
  }

  function ChargeOf(g: Grant): nat {
    if g.Settled? then Charge(g.size) else PAGE
  }

  // The charge is the least page multiple that covers the image; it covers the image exactly when
  // that multiple is a 32-bit number, and is one page otherwise.
  lemma {:induction false} ChargeCovers(size: u32)
    ensures Charge(Some(size)) ==
      if 0 < size <= 0xFFFF_F000 then Pages(size) else 4096
    ensures size <= Charge(Some(size)) <==> size <= 0xFFFF_F000
    ensures 0 < size <= 0xFFFF_F000 ==>
      Charge(Some(size)) % 4096 == 0 && size <= Charge(Some(size)) < size + 4096
    ensures Charge(None) == 4096
  {
    if size + PAGE - 1 < U32 {
      ModUnique(size + PAGE - 1, U32, 0, size + PAGE - 1);
    } else {
      ModUnique(size + PAGE - 1, U32, 1, size + PAGE - 1 - U32);
    }
  }

  // What a grant takes, said with the size alone.
  function Taken(g: Grant): nat {
    if g.Settled? && g.size.Some? && 0 < g.size.value <= 0xFFFF_F000 then Pages(g.size.value) else 4096
  }

  lemma {:induction false} ChargeIsTaken(g: Grant)
    ensures ChargeOf(g) == Taken(g)
  {
    hide Charge, Pages;
    if g.Settled? { ChargeCovers(if g.size.Some? then g.size.value else 0); }
  }

  function Step(s: State, a: Action, wordSize: nat): State
    requires wordSize > 0
  {
    if a.t >= |s.loaders| then s
    else
      match a
      case Load(t) =>
        if s.loaders[t].Ready? then s.(loaders := s.loaders[t := Read(s.cursor)]) else s
      case Swap(t) =>
        if !s.loaders[t].Read? then s
        else if s.loaders[t].expected != s.cursor then s.(loaders := s.loaders[t := Ready])
        else
          var base := RoundUp(s.loaders[t].expected, wordSize);
          State(Advance(base, PAGE, wordSize), s.loaders[t := Holding(|s.grants|)], s.grants + [Pending(base)])
      case Finish(t, size) =>
        if !s.loaders[t].Holding? || s.loaders[t].g >= |s.grants| then s
        else
          var g := s.loaders[t].g;
          State(Advance(s.cursor, Charge(size) - PAGE, wordSize),
          s.loaders[t := Ready], s.grants[g := Settled(s.grants[g].base, size)])
  }

  function Run(s: State, schedule: seq<Action>, wordSize: nat): State
    requires wordSize > 0
  {
    if schedule == [] then s else Step(Run(s, schedule[..|schedule| - 1], wordSize), schedule[|schedule| - 1], wordSize)
  }

  function Initial(start: nat, loaders: nat): State {
    State(start, seq(loaders, _ => Ready), [])
  }

  // ---- Conservation --------------------------------------------------------------------------

  function Total(grants: seq<Grant>): nat {
    if grants == [] then 0 else Total(grants[..|grants| - 1]) + ChargeOf(grants[|grants| - 1])
  }

  // The same sum, over the least page multiples of the sizes.
  function TakenTotal(grants: seq<Grant>): nat {
    if grants == [] then 0 else TakenTotal(grants[..|grants| - 1]) + Taken(grants[|grants| - 1])
  }

  lemma {:induction false} TotalIsTaken(grants: seq<Grant>)
    ensures Total(grants) == TakenTotal(grants)
  {
    hide Taken, ChargeOf;
    if grants != [] {
      TotalIsTaken(grants[..|grants| - 1]);
      ChargeIsTaken(grants[|grants| - 1]);
    }
  }

  lemma {:induction false} TotalSnoc(grants: seq<Grant>, x: Grant)
    ensures Total(grants + [x]) == Total(grants) + ChargeOf(x)
  {
    assert (grants + [x])[..|grants|] == grants;
  }

  lemma {:induction false} TotalUpdate(grants: seq<Grant>, g: nat, x: Grant)
    requires g < |grants|
    ensures Total(grants[g := x]) == Total(grants) - ChargeOf(grants[g]) + ChargeOf(x)
  {
    var n := |grants| - 1;
    if g == n {
      assert grants[g := x][..n] == grants[..n];
    } else {
      assert grants[g := x][..n] == grants[..n][g := x];
      TotalUpdate(grants[..n], g, x);
    }
  }

  // Each pending grant is held by exactly one loader.
  predicate Held(s: State) {
    && (forall t :: 0 <= t < |s.loaders| && s.loaders[t].Holding? ==>
        s.loaders[t].g < |s.grants| && s.grants[s.loaders[t].g].Pending?)
    && (forall t, u :: 0 <= t < u < |s.loaders| && s.loaders[t].Holding? && s.loaders[u].Holding? ==>
        s.loaders[t].g != s.loaders[u].g)
    && (forall g :: 0 <= g < |s.grants| && s.grants[g].Pending? ==>
        exists t :: 0 <= t < |s.loaders| && s.loaders[t] == Holding(g))
  }

  // The cursor has moved by exactly what was charged, and stays on page boundaries.
  predicate Conserved(s: State, start: nat, wordSize: nat)
    requires wordSize > 0
  {
    && s.cursor == Advance(start, Total(s.grants), wordSize)
    && Total(s.grants) % PAGE == 0
    && (forall g :: 0 <= g < |s.grants| ==> s.grants[g].base % PAGE == 0)
  }

  lemma {:induction false} AlignedRound(v: nat, wordSize: nat)
    requires WordSize(wordSize) && v < wordSize && v % PAGE == 0
    ensures RoundUp(v, wordSize) == v
  {
    assert v + PAGE - 1 < wordSize;
  }

  lemma {:induction false} ChargePaged(size: Option<u32>)
    ensures Charge(size) >= PAGE && Charge(size) % PAGE == 0
  {
  }

  lemma {:induction false} AdvanceAligned(start: nat, n: nat, wordSize: nat)
    requires WordSize(wordSize) && start % PAGE == 0 && n % PAGE == 0
    ensures Advance(start, n, wordSize) % PAGE == 0 && Advance(start, n, wordSize) < wordSize
  {
    var v := start + n;
    var q, r, m, pages := v / wordSize, v % wordSize, start / PAGE + n / PAGE, wordSize / PAGE;
    assert v == wordSize * q + r && v == PAGE * m && wordSize == PAGE * pages;
    assert wordSize * q == PAGE * (pages * q);
    ModUnique(r, PAGE, m - pages * q, 0);
  }

  lemma {:induction false} RunConserves(start: nat, loaders: nat, schedule: seq<Action>, wordSize: nat)
    requires WordSize(wordSize) && start < wordSize && start % PAGE == 0
    ensures
      var s := Run(Initial(start, loaders), schedule, wordSize);
      Held(s) && Conserved(s, start, wordSize) && |s.loaders| == loaders
  {
    hide Held, Conserved, Step;
    if schedule == [] {
      InitialFine(start, loaders, wordSize);
    } else {
      RunConserves(start, loaders, schedule[..|schedule| - 1], wordSize);
      StepConserves(Run(Initial(start, loaders), schedule[..|schedule| - 1], wordSize), schedule[|schedule| - 1],
        start, wordSize);
    }
  }

  lemma {:induction false} InitialFine(start: nat, loaders: nat, wordSize: nat)
    requires WordSize(wordSize) && start < wordSize && start % PAGE == 0
    ensures var s := Initial(start, loaders); Held(s) && Conserved(s, start, wordSize) && |s.loaders| == loaders
  {
  }

  lemma {:induction false} StepConserves(s: State, a: Action, start: nat, wordSize: nat)
    requires WordSize(wordSize) && start % PAGE == 0 && Held(s) && Conserved(s, start, wordSize)
    ensures var s' := Step(s, a, wordSize); Held(s') && Conserved(s', start, wordSize) && |s'.loaders| == |s.loaders|
  {
    hide Total, RoundUp, Charge;
    if a.t < |s.loaders| {
      match a
      case Load(t) =>
        if s.loaders[t].Ready? { LoaderMoves(s, t, Read(s.cursor)); }
      case Swap(t) =>
        if s.loaders[t].Read? && s.loaders[t].expected == s.cursor {
          SwapConserves(s, t, start, wordSize);
          SwapHeld(s, t, wordSize);
        } else if s.loaders[t].Read? {
          LoaderMoves(s, t, Ready);
        }
      case Finish(t, size) =>
        if s.loaders[t].Holding? {
          FinishConserves(s, t, size, start, wordSize);
          FinishHeld(s, t, size, wordSize);
        }
    }
  }

  lemma {:induction false} SwapConserves(s: State, t: nat, start: nat, wordSize: nat)
    requires WordSize(wordSize) && start % PAGE == 0 && Conserved(s, start, wordSize)
    requires t < |s.loaders| && s.loaders[t].Read? && s.loaders[t].expected == s.cursor
    ensures Conserved(Step(s, Swap(t), wordSize), start, wordSize)
    ensures Step(s, Swap(t), wordSize).grants == s.grants + [Pending(s.cursor)]
  {
    hide Total, RoundUp, Advance;
    var total := Total(s.grants);
    AdvanceAligned(start, total, wordSize);
    AlignedRound(s.cursor, wordSize);
    TotalSnoc(s.grants, Pending(s.cursor));
    AdvanceTwice(start, total, PAGE, wordSize);
  }

  lemma {:induction false} FinishConserves(s: State, t: nat, size: Option<u32>, start: nat, wordSize: nat)
    requires wordSize > 0 && Conserved(s, start, wordSize)
    requires t < |s.loaders| && s.loaders[t].Holding? && s.loaders[t].g < |s.grants|
    requires s.grants[s.loaders[t].g].Pending?
    ensures Conserved(Step(s, Finish(t, size), wordSize), start, wordSize)
  {
    hide Total, Charge, Advance;
    var g := s.loaders[t].g;
    ChargePaged(size);
    TotalUpdate(s.grants, g, Settled(s.grants[g].base, size));
    AdvanceTwice(start, Total(s.grants), Charge(size) - PAGE, wordSize);
  }

  // A loader that holds nothing before or after changes nothing about who holds what.
  lemma {:induction false} LoaderMoves(s: State, t: nat, l: Loader)
    requires Held(s) && t < |s.loaders| && !s.loaders[t].Holding? && !l.Holding?
    ensures Held(s.(loaders := s.loaders[t := l]))
  {
    var s' := s.(loaders := s.loaders[t := l]);
    forall g | 0 <= g < |s.grants| && s.grants[g].Pending?
      ensures exists u :: 0 <= u < |s'.loaders| && s'.loaders[u] == Holding(g)
    {
      var u :| 0 <= u < |s.loaders| && s.loaders[u] == Holding(g);
      assert s'.loaders[u] == Holding(g);
    }
  }

  lemma {:induction false} SwapHeld(s: State, t: nat, wordSize: nat)
    requires wordSize > 0 && Held(s) && t < |s.loaders| && s.loaders[t].Read? && s.loaders[t].expected == s.cursor
    ensures Held(Step(s, Swap(t), wordSize))
  {
    hide RoundUp;
    var s' := Step(s, Swap(t), wordSize);
    forall g | 0 <= g < |s'.grants| && s'.grants[g].Pending?
      ensures exists u :: 0 <= u < |s'.loaders| && s'.loaders[u] == Holding(g)
    {
      if g < |s.grants| {
        var u :| 0 <= u < |s.loaders| && s.loaders[u] == Holding(g);
        assert s'.loaders[u] == Holding(g);
      } else {
        assert s'.loaders[t] == Holding(g);
      }
    }
  }

  lemma {:induction false} FinishHeld(s: State, t: nat, size: Option<u32>, wordSize: nat)
    requires wordSize > 0 && Held(s) && t < |s.loaders| && s.loaders[t].Holding?
    ensures Held(Step(s, Finish(t, size), wordSize))
  {
    hide Charge;
    var s' := Step(s, Finish(t, size), wordSize);
    forall g | 0 <= g < |s'.grants| && s'.grants[g].Pending?
      ensures exists u :: 0 <= u < |s'.loaders| && s'.loaders[u] == Holding(g)
    {
      var u :| 0 <= u < |s.loaders| && s.loaders[u] == Holding(g);
      assert s'.loaders[u] == Holding(g);
    }
  }

  // In every run, once no loader is in the middle of a DLL, the cursor has advanced by exactly
  // the least page multiples of the mapped DLLs' sizes, with one page for each that failed to map.
  lemma {:induction false} QuiescentCursor(start: nat, loaders: nat, schedule: seq<Action>, wordSize: nat)
    requires WordSize(wordSize) && start < wordSize && start % PAGE == 0
    requires forall t :: 0 <= t < loaders && t < |Run(Initial(start, loaders), schedule, wordSize).loaders| ==>
      !Run(Initial(start, loaders), schedule, wordSize).loaders[t].Holding?
    ensures
      var s := Run(Initial(start, loaders), schedule, wordSize);
      && (forall g :: 0 <= g < |s.grants| ==> s.grants[g].Settled?)
      && s.cursor == (start + TakenTotal(s.grants)) % wordSize
  {
    hide Total, TakenTotal, Run;
    RunConserves(start, loaders, schedule, wordSize);
    TotalIsTaken(Run(Initial(start, loaders), schedule, wordSize).grants);
  }

  // A loader whose swap failed reads again and, if no other gets in between, reserves the next base.
  lemma {:induction false} RetryWins(s: State, t: nat, wordSize: nat)
    requires wordSize > 0 && t < |s.loaders| && s.loaders[t].Read? && s.loaders[t].expected != s.cursor
    ensures
      var failed := Step(s, Swap(t), wordSize);
      var won := Step(Step(failed, Load(t), wordSize), Swap(t), wordSize);
      && failed.grants == s.grants && failed.cursor == s.cursor
      && won.grants == s.grants + [Pending(RoundUp(s.cursor, wordSize))] && won.loaders[t] == Holding(|s.grants|)
  {
    hide RoundUp, Advance;
  }

  // ---- Distinct bases -----------------------------------------------------------------------------

  // Bases lie a page or more apart, in the order they were granted, between the start and
  // the end of what has been charged.
  predicate Spaced(s: State, start: nat) {
    && (forall g :: 0 <= g < |s.grants| ==>
        start <= s.grants[g].base && s.grants[g].base + PAGE <= start + Total(s.grants))
    && (forall g, h :: 0 <= g < h < |s.grants| ==> s.grants[g].base + PAGE <= s.grants[h].base)
  }

  lemma {:induction false} TotalGrows(s: State, a: Action, wordSize: nat)
    requires wordSize > 0 && Held(s)
    ensures Total(s.grants) <= Total(Step(s, a, wordSize).grants)
  {
    hide Total, RoundUp, Charge;
    if a.t < |s.loaders| {
      if a.Swap? {
        TotalSnoc(s.grants, Pending(RoundUp(s.cursor, wordSize)));
      } else if a.Finish? && s.loaders[a.t].Holding? {
        var g := s.loaders[a.t].g;
        ChargePaged(a.size);
        TotalUpdate(s.grants, g, Settled(s.grants[g].base, a.size));
      }
    }
  }

  lemma {:induction false} StepSpaces(s: State, a: Action, start: nat, wordSize: nat)
    requires WordSize(wordSize) && start % PAGE == 0 && Held(s) && Conserved(s, start, wordSize) && Spaced(s, start)
    requires start + Total(Step(s, a, wordSize).grants) <= wordSize
    ensures Spaced(Step(s, a, wordSize), start)
  {
    hide Total, RoundUp, Charge;
    var s' := Step(s, a, wordSize);
    TotalGrows(s, a, wordSize);
    if a.t < |s.loaders| {
      match a
      case Load(t) =>
      case Swap(t) =>
        if s.loaders[t].Read? && s.loaders[t].expected == s.cursor {
          SwapConserves(s, t, start, wordSize);
          TotalSnoc(s.grants, Pending(s.cursor));
          ModUnique(start + Total(s.grants), wordSize, 0, start + Total(s.grants));
        }
      case Finish(t, size) =>
        assert forall g :: 0 <= g < |s.grants| ==> s'.grants[g].base == s.grants[g].base;
    }
  }

  // In every interleaving that has not used up the address range, the reserved bases are
  // pairwise distinct (a page or more apart) and page-aligned.
  lemma {:induction false} BasesDistinct(start: nat, loaders: nat, schedule: seq<Action>, wordSize: nat)
    requires WordSize(wordSize) && start < wordSize && start % PAGE == 0
    requires start + Total(Run(Initial(start, loaders), schedule, wordSize).grants) <= wordSize
    ensures
      var s := Run(Initial(start, loaders), schedule, wordSize);
      Spaced(s, start) && forall g :: 0 <= g < |s.grants| ==> s.grants[g].base % PAGE == 0
  {
    hide Total, Step, Held;
    RunConserves(start, loaders, schedule, wordSize);
    if schedule != [] {
      var s, a := Run(Initial(start, loaders), schedule[..|schedule| - 1], wordSize), schedule[|schedule| - 1];
      RunConserves(start, loaders, schedule[..|schedule| - 1], wordSize);
      TotalGrows(s, a, wordSize);
      BasesDistinct(start, loaders, schedule[..|schedule| - 1], wordSize);
      StepSpaces(s, a, start, wordSize);
    }
  }

  // ---- Disjoint windows ------------------------------------------------------------------------------

  // The windows, whole charges long, are pairwise disjoint.
  predicate WindowsApart(grants: seq<Grant>) {
    forall g, h :: 0 <= g < h < |grants| ==>
      Apart(grants[g].base, ChargeOf(grants[g]), grants[h].base, ChargeOf(grants[h]))
  }

  // The images of the mapped DLLs, size bytes from their bases, are pairwise disjoint.
  predicate ImagesApart(grants: seq<Grant>) {
    forall g, h :: 0 <= g < h < |grants| && Mapped(grants[g]) && Mapped(grants[h]) ==>
      Apart(grants[g].base, grants[g].size.value, grants[h].base, grants[h].size.value)
  }

  predicate Mapped(g: Grant) {
    g.Settled? && g.size.Some?
  }

  // No size is in the last page below 4 GB, where rounding up wraps.
  predicate Coverable(grants: seq<Grant>) {
    forall g :: 0 <= g < |grants| && Mapped(grants[g]) ==> grants[g].size.value <= 0xFFFF_F000
  }

  lemma {:induction false} WindowsCoverImages(grants: seq<Grant>)
    requires WindowsApart(grants) && Coverable(grants)
    ensures ImagesApart(grants)
  {
    hide Charge;
    forall g | 0 <= g < |grants| && Mapped(grants[g]) ensures grants[g].size.value <= ChargeOf(grants[g]) {
      ChargeCovers(grants[g].size.value);
    }
  }

  // Between page-aligned bases, an image that is not empty ends before the next base exactly when
  // its window does.
  lemma {:induction false} ImagesFillWindows(grants: seq<Grant>)
    requires ImagesApart(grants) && Coverable(grants)
    requires forall g :: 0 <= g < |grants| ==>
      Mapped(grants[g]) && grants[g].size.value > 0 && grants[g].base % PAGE == 0
    requires forall g, h :: 0 <= g < h < |grants| ==> grants[g].base + PAGE <= grants[h].base
    ensures WindowsApart(grants)
  {
    hide Charge;
    forall g, h | 0 <= g < h < |grants|
      ensures Apart(grants[g].base, ChargeOf(grants[g]), grants[h].base, ChargeOf(grants[h]))
    {
      assert Mapped(grants[g]) && Mapped(grants[h]);
      ChargeCovers(grants[g].size.value);
      PageGap(grants[g].base, grants[h].base, ChargeOf(grants[g]), grants[g].size.value);
    }
  }

  lemma {:induction false} PageGap(low: nat, high: nat, charge: nat, size: nat)
    requires low % PAGE == 0 && high % PAGE == 0 && charge % PAGE == 0 && size <= charge < size + PAGE
    requires low + size <= high
    ensures low + charge <= high
  {
  }

  // The compare-and-swap of this action succeeds.
  predicate Wins(s: State, a: Action) {
    a.Swap? && a.t < |s.loaders| && s.loaders[a.t] == Read(s.cursor)
  }

  // No base is reserved while a DLL that will take more than a page is between its own
  // reservation and its size being added; `final` are the grants at the end of the run.
  predicate Clean(s: State, schedule: seq<Action>, final: seq<Grant>, wordSize: nat)
    requires wordSize > 0
  {
    schedule == [] ||
    (var init := schedule[..|schedule| - 1];
     && Clean(s, init, final, wordSize)
     && (Wins(Run(s, init, wordSize), schedule[|schedule| - 1]) ==>
         PendingSmall(Run(s, init, wordSize).grants, final)))
  }

  predicate PendingSmall(grants: seq<Grant>, final: seq<Grant>) {
    forall g :: 0 <= g < |grants| && g < |final| && grants[g].Pending? ==> ChargeOf(final[g]) <= PAGE
  }

  // The grants of an earlier moment of the run that ends in `final`.
  predicate Earlier(grants: seq<Grant>, final: seq<Grant>) {
    && |grants| <= |final|
    && forall g :: 0 <= g < |grants| ==>
        grants[g].base == final[g].base && (grants[g].Settled? ==> grants[g] == final[g])
  }

  lemma {:induction false} StepEarlier(s: State, a: Action, final: seq<Grant>, wordSize: nat)
    requires wordSize > 0 && Held(s) && Earlier(Step(s, a, wordSize).grants, final)
    ensures Earlier(s.grants, final)
  {
    hide RoundUp, Charge;
    var s' := Step(s, a, wordSize);
    assert |s.grants| <= |s'.grants|;
    forall g | 0 <= g < |s.grants|
      ensures s.grants[g].base == final[g].base && (s.grants[g].Settled? ==> s.grants[g] == final[g])
    {
      assert s'.grants[g].base == s.grants[g].base && (s.grants[g].Settled? ==> s'.grants[g] == s.grants[g]);
    }
  }

  // What every grant has been charged so far lies behind the end of all charges.
  predicate Behind(s: State, start: nat) {
    forall g :: 0 <= g < |s.grants| ==> s.grants[g].base + ChargeOf(s.grants[g]) <= start + Total(s.grants)
  }

  // A swap that wins reserves at the end of all charges.
  lemma {:induction false} WinAppends(s: State, a: Action, start: nat, wordSize: nat)
    requires WordSize(wordSize) && start % PAGE == 0 && Conserved(s, start, wordSize) && Wins(s, a)
    requires start + Total(Step(s, a, wordSize).grants) <= wordSize
    ensures Step(s, a, wordSize).grants == s.grants + [Pending(start + Total(s.grants))]
    ensures Total(Step(s, a, wordSize).grants) == Total(s.grants) + PAGE
  {
    hide Total, RoundUp, Charge;
    SwapConserves(s, a.t, start, wordSize);
    TotalSnoc(s.grants, Pending(s.cursor));
    ModUnique(start + Total(s.grants), wordSize, 0, start + Total(s.grants));
  }

  // Any other action appends nothing; a finish settles one grant.
  lemma {:induction false} OtherKeeps(s: State, a: Action, wordSize: nat)
    requires wordSize > 0 && Held(s) && !Wins(s, a)
    ensures
      var s' := Step(s, a, wordSize);
      s'.grants == s.grants ||
      (a.Finish? && a.t < |s.loaders| && s.loaders[a.t].Holding? &&
       var g := s.loaders[a.t].g;
       && g < |s.grants| && s.grants[g].Pending? && s'.grants == s.grants[g := Settled(s.grants[g].base, a.size)]
       && Total(s'.grants) == Total(s.grants) - PAGE + Charge(a.size))
  {
    hide Total, RoundUp, Charge;
    if a.Finish? && a.t < |s.loaders| && s.loaders[a.t].Holding? {
      var g := s.loaders[a.t].g;
      TotalUpdate(s.grants, g, Settled(s.grants[g].base, a.size));
    }
  }

  lemma {:induction false} StepBehind(s: State, a: Action, start: nat, wordSize: nat)
    requires WordSize(wordSize) && start % PAGE == 0 && Held(s) && Conserved(s, start, wordSize) && Behind(s, start)
    requires start + Total(Step(s, a, wordSize).grants) <= wordSize
    ensures Behind(Step(s, a, wordSize), start)
  {
    hide Total, Step, Charge, Held, Conserved;
    TotalGrows(s, a, wordSize);
    if Wins(s, a) {
      WinAppends(s, a, start, wordSize);
    } else {
      OtherKeeps(s, a, wordSize);
    }
  }

  // The prefix of the run that `schedule` plays, with its facts.
  predicate Prefix(start: nat, loaders: nat, schedule: seq<Action>, final: seq<Grant>, wordSize: nat) {
    && WordSize(wordSize) && start < wordSize && start % PAGE == 0
    && var s := Run(Initial(start, loaders), schedule, wordSize);
    Earlier(s.grants, final) && start + Total(s.grants) <= wordSize
  }

  lemma {:induction false} ShorterPrefix(start: nat, loaders: nat, schedule: seq<Action>, final: seq<Grant>,
          wordSize: nat)
    requires Prefix(start, loaders, schedule, final, wordSize) && schedule != []
    ensures
      var init := schedule[..|schedule| - 1];
      var s := Run(Initial(start, loaders), init, wordSize);
      Prefix(start, loaders, init, final, wordSize) && Held(s) && Conserved(s, start, wordSize)
  {
    hide Total, Step, Held, Conserved, Earlier;
    var init, a := schedule[..|schedule| - 1], schedule[|schedule| - 1];
    var s := Run(Initial(start, loaders), init, wordSize);
    RunConserves(start, loaders, init, wordSize);
    TotalGrows(s, a, wordSize);
    StepEarlier(s, a, final, wordSize);
  }

  lemma {:induction false} RunBehind(start: nat, loaders: nat, schedule: seq<Action>, final: seq<Grant>, wordSize: nat)
    requires Prefix(start, loaders, schedule, final, wordSize)
    ensures Behind(Run(Initial(start, loaders), schedule, wordSize), start)
  {
    hide Total, Step, Held, Conserved, Earlier;
    if schedule != [] {
      var init := schedule[..|schedule| - 1];
      ShorterPrefix(start, loaders, schedule, final, wordSize);
      RunBehind(start, loaders, init, final, wordSize);
      StepBehind(Run(Initial(start, loaders), init, wordSize), schedule[|schedule| - 1], start, wordSize);
    }
  }

  // The first n windows end before the next begins.
  predicate Ordered(final: seq<Grant>, n: nat) {
    forall g, h :: 0 <= g < h < n && h < |final| ==> final[g].base + ChargeOf(final[g]) <= final[h].base
  }

  lemma {:induction false} CleanOrders(start: nat, loaders: nat, schedule: seq<Action>, final: seq<Grant>,
          wordSize: nat)
    requires Prefix(start, loaders, schedule, final, wordSize)
      && Clean(Initial(start, loaders), schedule, final, wordSize)
    ensures Ordered(final, |Run(Initial(start, loaders), schedule, wordSize).grants|)
  {
    hide Total, Step, Held, Conserved, ChargeOf;
    if schedule != [] {
      var init, a := schedule[..|schedule| - 1], schedule[|schedule| - 1];
      var s := Run(Initial(start, loaders), init, wordSize);
      ShorterPrefix(start, loaders, schedule, final, wordSize);
      CleanOrders(start, loaders, init, final, wordSize);
      if Wins(s, a) {
        RunBehind(start, loaders, init, final, wordSize);
        WinAppends(s, a, start, wordSize);
        CleanWin(s.grants, final, start);
      } else {
        OtherKeeps(s, a, wordSize);
      }
    }
  }

  lemma {:induction false} CleanWin(grants: seq<Grant>, final: seq<Grant>, start: nat)
    requires PendingSmall(grants, final) && Earlier(grants, final) && Behind(State(0, [], grants), start)
    ensures forall g :: 0 <= g < |grants| ==> final[g].base + ChargeOf(final[g]) <= start + Total(grants)
  {
    hide Total, Charge;
  }

  // In a clean prefix only the last grant can still grow, and while it is pending nothing
  // has been charged after it.
  predicate Quiet(grants: seq<Grant>, final: seq<Grant>, start: nat) {
    && |grants| <= |final|
    && (forall g :: 0 <= g < |grants| - 1 && grants[g].Pending? ==> ChargeOf(final[g]) <= PAGE)
    && (grants != [] && grants[|grants| - 1].Pending? ==> start + Total(grants) == grants[|grants| - 1].base + PAGE)
  }

  lemma {:induction false} OrderedIsClean(start: nat, loaders: nat, schedule: seq<Action>, final: seq<Grant>,
          wordSize: nat)
    requires Prefix(start, loaders, schedule, final, wordSize)
    requires Ordered(final, |Run(Initial(start, loaders), schedule, wordSize).grants|)
    ensures Clean(Initial(start, loaders), schedule, final, wordSize)
    ensures Quiet(Run(Initial(start, loaders), schedule, wordSize).grants, final, start)
  {
    hide Total, Step, Held, Conserved, ChargeOf, Quiet, PendingSmall, Earlier;
    if schedule == [] {
      assert Quiet([], final, start) by { QuietStart(final, start); }
    } else {
      var init, a := schedule[..|schedule| - 1], schedule[|schedule| - 1];
      var s := Run(Initial(start, loaders), init, wordSize);
      ShorterPrefix(start, loaders, schedule, final, wordSize);
      if Wins(s, a) {
        WinAppends(s, a, start, wordSize);
        OrderedIsClean(start, loaders, init, final, wordSize);
        QuietWin(s.grants, final, start);
      } else {
        OtherKeeps(s, a, wordSize);
        OrderedIsClean(start, loaders, init, final, wordSize);
        if Step(s, a, wordSize).grants != s.grants {
          QuietFinish(s.grants, final, start, s.loaders[a.t].g, a.size);
        }
      }
    }
  }

  lemma {:induction false} QuietStart(final: seq<Grant>, start: nat)
    ensures Quiet([], final, start)
  {
  }

  lemma {:induction false} QuietWin(grants: seq<Grant>, final: seq<Grant>, start: nat)
    requires Quiet(grants, final, start) && Earlier(grants + [Pending(start + Total(grants))], final)
    requires Ordered(final, |grants| + 1)
    ensures PendingSmall(grants, final) && Quiet(grants + [Pending(start + Total(grants))], final, start)
  {
    hide Total, ChargeOf;
    var n, next := |grants|, Pending(start + Total(grants));
    assert (grants + [next])[n] == next;
    if n > 0 {
      assert (grants + [next])[n - 1] == grants[n - 1];
    }
    NewTotal(grants, start + Total(grants));
  }

  lemma {:induction false} NewTotal(grants: seq<Grant>, base: nat)
    ensures Total(grants + [Pending(base)]) == Total(grants) + PAGE
  {
    TotalSnoc(grants, Pending(base));
  }

  lemma {:induction false} QuietFinish(grants: seq<Grant>, final: seq<Grant>, start: nat, g: nat, size: Option<u32>)
    requires g < |grants| && grants[g].Pending? && Quiet(grants, final, start)
    requires Earlier(grants[g := Settled(grants[g].base, size)], final)
    requires Total(grants[g := Settled(grants[g].base, size)]) == Total(grants) - PAGE + Charge(size)
    ensures Quiet(grants[g := Settled(grants[g].base, size)], final, start)
  {
    hide Total, Charge;
    ChargePaged(size);
    assert final[g] == grants[g := Settled(grants[g].base, size)][g];
  }

  // In every interleaving inside the address range the reserved windows are pairwise
  // disjoint if and only if no base was reserved while a DLL of more than a page was
  // waiting for its size to be added. The images then lie apart too, unless a size is too close to
  // 4 GB for its charge to cover it; when all DLLs were mapped, the images are disjoint only then.
  lemma {:induction false} WindowsApartExactly(start: nat, loaders: nat, schedule: seq<Action>, wordSize: nat)
    requires WordSize(wordSize) && start < wordSize && start % PAGE == 0
    requires start + Total(Run(Initial(start, loaders), schedule, wordSize).grants) <= wordSize
    ensures
      var final := Run(Initial(start, loaders), schedule, wordSize).grants;
      && (WindowsApart(final) <==> Clean(Initial(start, loaders), schedule, final, wordSize))
      && (Coverable(final) && Clean(Initial(start, loaders), schedule, final, wordSize) ==> ImagesApart(final))
      && (Coverable(final) && (forall g :: 0 <= g < |final| ==> Mapped(final[g]) && final[g].size.value > 0) ==>
          (ImagesApart(final) <==> Clean(Initial(start, loaders), schedule, final, wordSize)))
  {
    hide Total, Run, Clean, ChargeOf;
    var final := Run(Initial(start, loaders), schedule, wordSize).grants;
    BasesDistinct(start, loaders, schedule, wordSize);
    OrderedApart(final);
    if Clean(Initial(start, loaders), schedule, final, wordSize) {
      CleanOrders(start, loaders, schedule, final, wordSize);
    }
    if Ordered(final, |final|) {
      OrderedIsClean(start, loaders, schedule, final, wordSize);
    }
    if Coverable(final) && WindowsApart(final) { WindowsCoverImages(final); }
    if Coverable(final) && ImagesApart(final) &&
        forall g :: 0 <= g < |final| ==> Mapped(final[g]) && final[g].size.value > 0 {
      ImagesFillWindows(final);
    }
  }

  lemma {:induction false} OrderedApart(final: seq<Grant>)
    requires forall g, h :: 0 <= g < h < |final| ==> final[g].base + PAGE <= final[h].base
    ensures WindowsApart(final) <==> Ordered(final, |final|)
  {
    hide Charge;
    forall h | 0 <= h < |final| ensures ChargeOf(final[h]) >= PAGE {
      if final[h].Settled? { ChargePaged(final[h].size); }
    }
  }

  // ---- Sequential loading ------------------------------------------------------------------------------

  predicate AllSettled(s: State) {
    forall g :: 0 <= g < |s.grants| ==> s.grants[g].Settled?
  }

  // No base is reserved while another DLL is waiting for its size to be added.
  predicate Sequential(s: State, schedule: seq<Action>, wordSize: nat)
    requires wordSize > 0
  {
    schedule == [] ||
    (var init := schedule[..|schedule| - 1];
     && Sequential(s, init, wordSize)
     && (Wins(Run(s, init, wordSize), schedule[|schedule| - 1]) ==> AllSettled(Run(s, init, wordSize))))
  }

  lemma {:induction false} SequentialIsClean(s: State, schedule: seq<Action>, final: seq<Grant>, wordSize: nat)
    requires wordSize > 0 && Sequential(s, schedule, wordSize)
    ensures Clean(s, schedule, final, wordSize)
  {
    hide Run;
    if schedule != [] { SequentialIsClean(s, schedule[..|schedule| - 1], final, wordSize); }
  }

  // A single loader is sequential, whatever it does: it holds nothing when it swaps.
  lemma {:induction false} OneLoaderSequential(start: nat, schedule: seq<Action>, wordSize: nat)
    requires WordSize(wordSize) && start < wordSize && start % PAGE == 0
    ensures Sequential(Initial(start, 1), schedule, wordSize)
  {
    hide Run, Conserved;
    if schedule != [] {
      OneLoaderSequential(start, schedule[..|schedule| - 1], wordSize);
      RunConserves(start, 1, schedule[..|schedule| - 1], wordSize);
    }
  }

  // In sequential runs the windows are pairwise disjoint.
  lemma {:induction false} WindowsDisjoint(start: nat, loaders: nat, schedule: seq<Action>, wordSize: nat)
    requires WordSize(wordSize) && start < wordSize && start % PAGE == 0
    requires Sequential(Initial(start, loaders), schedule, wordSize)
    requires start + Total(Run(Initial(start, loaders), schedule, wordSize).grants) <= wordSize
    ensures WindowsApart(Run(Initial(start, loaders), schedule, wordSize).grants)
  {
    hide Total, Run, Clean, WindowsApart;
    SequentialIsClean(Initial(start, loaders), schedule, Run(Initial(start, loaders), schedule, wordSize).grants,
      wordSize);
    WindowsApartExactly(start, loaders, schedule, wordSize);
  }

  // In particular in every run of one loader, nested loads included.
  lemma {:induction false} OneLoaderApart(start: nat, schedule: seq<Action>, wordSize: nat)
    requires WordSize(wordSize) && start < wordSize && start % PAGE == 0
    requires start + Total(Run(Initial(start, 1), schedule, wordSize).grants) <= wordSize
    ensures WindowsApart(Run(Initial(start, 1), schedule, wordSize).grants)
    ensures Coverable(Run(Initial(start, 1), schedule, wordSize).grants) ==>
      ImagesApart(Run(Initial(start, 1), schedule, wordSize).grants)
  {
    hide Total, Run, WindowsApart, ImagesApart, Coverable;
    OneLoaderSequential(start, schedule, wordSize);
    WindowsDisjoint(start, 1, schedule, wordSize);
    var grants := Run(Initial(start, 1), schedule, wordSize).grants;
    if Coverable(grants) { WindowsCoverImages(grants); }
  }

  // ---- The loader as one client ------------------------------------------------------------------------

  // A loader between DLLs stands where this schedule of its own actions has brought it.
  predicate Reserved(cursor: nat, grants: seq<Grant>, schedule: seq<Action>, wordSize: nat) {
    WordSize(wordSize) && Run(Initial(DLL_ALLOC_BASE, 1), schedule, wordSize) == State(cursor, [Ready], grants)
  }

  lemma {:induction false} ReservedStart(wordSize: nat)
    requires WordSize(wordSize)
    ensures Reserved(0x6000_0000, [], [], wordSize)
  {
  }

  // Read, swap and finish: one more window, from where the cursor stood.
  lemma {:induction false} ReserveNext(cursor: nat, grants: seq<Grant>, schedule: seq<Action>, size: Option<u32>,
          wordSize: nat)
    requires Reserved(cursor, grants, schedule, wordSize)
    ensures
      var next := Advance(Advance(RoundUp(cursor, wordSize), PAGE, wordSize), Charge(size) - PAGE, wordSize);
      var grant := Settled(RoundUp(cursor, wordSize), size);
      Reserved(next, grants + [grant], schedule + [Load(0)] + [Swap(0)] + [Finish(0, size)], wordSize)
  {
    hide Run, RoundUp, Advance, Charge;
    var s0, base, n := Initial(DLL_ALLOC_BASE, 1), RoundUp(cursor, wordSize), |grants|;
    var p1 := schedule + [Load(0)];
    var p2 := p1 + [Swap(0)];
    RunSnoc(s0, schedule, Load(0), wordSize);
    RunSnoc(s0, p1, Swap(0), wordSize);
    RunSnoc(s0, p2, Finish(0, size), wordSize);
    assert Run(s0, p1, wordSize) == State(cursor, [Read(cursor)], grants);
    assert Run(s0, p2, wordSize) == State(Advance(base, PAGE, wordSize), [Holding(n)], grants + [Pending(base)]);
    assert (grants + [Pending(base)])[n := Settled(base, size)] == grants + [Settled(base, size)];
  }

  // Taking no more than the page leaves the cursor where the swap put it.
  lemma {:induction false} NoRemainder(base: nat, wordSize: nat)
    requires wordSize > 0
    ensures Advance(Advance(base, PAGE, wordSize), 0, wordSize) == Advance(base, PAGE, wordSize)
  {
    AdvanceTwice(base, PAGE, 0, wordSize);
  }

  lemma {:induction false} TotalConcat(a: seq<Grant>, b: seq<Grant>)
    ensures Total(a + b) == Total(a) + Total(b)
  {
    if b == [] {
      assert a + b == a;
    } else {
      var n := |b| - 1;
      assert (a + b)[..|a| + n] == a + b[..n];
      TotalConcat(a, b[..n]);
    }
  }

  // Since `was`, the cursor has moved by exactly the charges of the grants added.
  predicate Extends(wasCursor: nat, was: seq<Grant>, cursor: nat, grants: seq<Grant>, wordSize: nat) {
    wordSize > 0 && was <= grants && cursor == Advance(wasCursor, Total(grants[|was|..]), wordSize)
  }

  lemma {:induction false} ReservedExtends(wasCursor: nat, was: seq<Grant>, wasSchedule: seq<Action>,
          cursor: nat, grants: seq<Grant>, schedule: seq<Action>, wordSize: nat)
    requires Reserved(wasCursor, was, wasSchedule, wordSize) && Reserved(cursor, grants, schedule, wordSize)
    requires was <= grants
    ensures Extends(wasCursor, was, cursor, grants, wordSize)
  {
    hide Run, Advance, Total;
    var start := DLL_ALLOC_BASE;
    RunConserves(start, 1, wasSchedule, wordSize);
    RunConserves(start, 1, schedule, wordSize);
    assert grants == was + grants[|was|..];
    TotalConcat(was, grants[|was|..]);
    AdvanceTwice(start, Total(was), Total(grants[|was|..]), wordSize);
  }

  // Its windows are disjoint while they stay inside the address range.
  lemma {:induction false} ReservedApart(cursor: nat, grants: seq<Grant>, schedule: seq<Action>, wordSize: nat)
    requires Reserved(cursor, grants, schedule, wordSize)
    ensures DLL_ALLOC_BASE + Total(grants) <= wordSize ==>
      WindowsApart(grants) && (Coverable(grants) ==> ImagesApart(grants))
  {
    hide Run, Total, WindowsApart, ImagesApart, Coverable;
    if DLL_ALLOC_BASE + Total(grants) <= wordSize {
      OneLoaderApart(DLL_ALLOC_BASE, schedule, wordSize);
    }
  }

  // Two loaders that both reserve before the first adds its size: the bases are distinct, but
  // the second base lies inside the first window exactly when the first DLL is longer than a
  // page, so concurrent windows are not disjoint.
  lemma {:induction false} ConcurrentWindows(size: u32)
    ensures
      var schedule := [Load(0), Swap(0), Load(1), Swap(1), Finish(0, Some(size))];
      var s := Run(Initial(DLL_ALLOC_BASE, 2), schedule, U64);
      && |s.grants| == 2 && s.grants[0].base == DLL_ALLOC_BASE && s.grants[1].base == DLL_ALLOC_BASE + PAGE
      && (s.grants[1].base < s.grants[0].base + ChargeOf(s.grants[0]) <==> PAGE < size <= U32 - PAGE)
  {
    hide Charge, Run, RoundUp;
    var b, s0 := DLL_ALLOC_BASE, Initial(DLL_ALLOC_BASE, 2);
    AlignedRound(b, U64);
    AlignedRound(b + PAGE, U64);
    var p1 := [] + [Load(0)];
    var p2 := p1 + [Swap(0)];
    var p3 := p2 + [Load(1)];
    var p4 := p3 + [Swap(1)];
    assert p4 + [Finish(0, Some(size))] == [Load(0), Swap(0), Load(1), Swap(1), Finish(0, Some(size))];
    RunSnoc(s0, [], Load(0), U64);
    RunSnoc(s0, p1, Swap(0), U64);
    RunSnoc(s0, p2, Load(1), U64);
    RunSnoc(s0, p3, Swap(1), U64);
    RunSnoc(s0, p4, Finish(0, Some(size)), U64);
    assert Run(s0, p1, U64) == State(b, [Read(b), Ready], []);
    assert Run(s0, p2, U64) == State(b + PAGE, [Holding(0), Ready], [Pending(b)]);
    assert Run(s0, p3, U64) == State(b + PAGE, [Holding(0), Read(b + PAGE)], [Pending(b)]);
    LongerThanAPage(size);
  }

  lemma {:induction false} RunSnoc(s: State, schedule: seq<Action>, a: Action, wordSize: nat)
    requires wordSize > 0
    ensures Run(s, schedule + [a], wordSize) == Step(Run(s, schedule, wordSize), a, wordSize)
    ensures Run(s, [], wordSize) == s
  {
    assert (schedule + [a])[..|schedule|] == schedule;
  }

  lemma {:induction false} LongerThanAPage(size: u32)
    ensures Charge(Some(size)) > PAGE <==> PAGE < size <= U32 - PAGE
  {
    hide Charge, Pages;
    ChargeCovers(size);
  }
}
