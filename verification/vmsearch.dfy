/**
 The address search of __vm_alloc (bbl/vm.c), in the source's unsigned arithmetic and in units of pages: a page table
 is a sequence of entries, an address is its page number modulo 2^52, and the table repeats every VPNS pages.
 */
module VmSearch {
  import opened Basics
  import opened Words
  import opened PageTable

  const PAGES: int := 0x10_0000_0000_0000    // pages in a 64-bit address space

  // ---------------------------------------------------------------- the search

  /** __va_avail */
  predicate Avail(f: seq<nat>, p: nat)
    requires |f| == VPNS
  {
    f[p % VPNS] == 0
  }

  /** The inner loop: from p down to the first page in use, but not below first. */
  function Backward(f: seq<nat>, first: nat, p: nat): (b: nat)
    requires |f| == VPNS
    ensures b <= p && (first <= p ==> first <= b)
    ensures b > first ==> !Avail(f, b)
    ensures forall q :: b < q <= p ==> Avail(f, q)
    ensures p <= first ==> b == p
  {
    if p > first && Avail(f, p) then Backward(f, first, p - 1) else p
  }

  /** What one turn of the outer loop ends in. */
  datatype Turn = Again(next: nat) | Return(page: nat)

  function TurnAt(f: seq<nat>, npage: nat, end: nat, p: nat): (t: Turn)
    requires |f| == VPNS && 0 < npage && p < PAGES
    ensures t.Again? ==> t.next < PAGES && (t.next > p || t.next == 0)
  {
    if p > end then Return(0)
    else if !Avail(f, p) then Again((p + 1) % PAGES)
    else
      var b := Backward(f, p, (p + npage - 1) % PAGES);
      if b > p then Again((b + 1) % PAGES) else Return(b)
  }

  /** The last page considered. */
  function EndPage(limit: nat, npage: nat): nat {
    (limit - npage) % PAGES
  }

  /** What the search returns within so many turns. */
  function Search(f: seq<nat>, npage: nat, end: nat, p: nat, turns: nat): Option<nat>
    requires |f| == VPNS && 0 < npage && p < PAGES
    decreases turns
  {
    if turns == 0 then None
    else
      match TurnAt(f, npage, end, p)
      case Return(r) => Some(r)
      case Again(next) => Search(f, npage, end, next, turns - 1)
  }

  // ---------------------------------------------------------------- where it ends

  datatype Lap = Returned(page: nat) | Wrapped

  /** From p on, the search returns, or its counter wraps round to 0. */
  function LapFrom(f: seq<nat>, npage: nat, end: nat, p: nat): Lap
    requires |f| == VPNS && 0 < npage && p < PAGES
    decreases PAGES - p
  {
    match TurnAt(f, npage, end, p)
    case Return(r) => Returned(r)
    case Again(next) => if next > p then LapFrom(f, npage, end, next) else Wrapped
  }

  /** The answer, unless the search goes round for ever. */
  function Outcome(f: seq<nat>, npage: nat, end: nat, p: nat, again: bool): Option<nat>
    requires |f| == VPNS && 0 < npage && p < PAGES
  {
    match LapFrom(f, npage, end, p)
    case Returned(r) => Some(r)
    case Wrapped =>
      if again then None
      else
        match LapFrom(f, npage, end, 0)
        case Returned(r) => Some(r)
        case Wrapped => None
  }

  /** One turn on, the outcome is the same. */
  lemma OutcomeTurn(f: seq<nat>, npage: nat, end: nat, p: nat, again: bool)
    requires |f| == VPNS && 0 < npage && p < PAGES
    ensures
      match TurnAt(f, npage, end, p)
      case Return(r) => Outcome(f, npage, end, p, again) == Some(r)
      case Again(next) =>
        if next > p then Outcome(f, npage, end, p, again) == Outcome(f, npage, end, next, again)
        else Outcome(f, npage, end, p, again) == if again then None else Outcome(f, npage, end, next, true)
  {
  }

  lemma TurnPast(f: seq<nat>, npage: nat, end: nat, p: nat)
    requires |f| == VPNS && 0 < npage && end < p < PAGES
    ensures TurnAt(f, npage, end, p) == Return(0)
  {
  }

  function Answer(f: seq<nat>, lo: nat, limit: nat, npage: nat): Option<nat>
    requires |f| == VPNS && 0 < npage && lo < PAGES
  {
    Outcome(f, npage, EndPage(limit, npage), lo, false)
  }

  /** A lap leads to the same result as some number of turns, or to page 0. */
  lemma {:induction false} LapTurns(f: seq<nat>, npage: nat, end: nat, p: nat) returns (n: nat)
    requires |f| == VPNS && 0 < npage && p < PAGES
    ensures 0 < n
    ensures
      match LapFrom(f, npage, end, p)
      case Returned(r) => Search(f, npage, end, p, n) == Some(r)
      case Wrapped => forall m :: n <= m ==> Search(f, npage, end, p, m) == Search(f, npage, end, 0, m - n)
    decreases PAGES - p
  {
    n := 1;
    var t := TurnAt(f, npage, end, p);
    if t.Again? && t.next > p {
      var k := LapTurns(f, npage, end, t.next);
      n := k + 1;
    }
  }

  lemma {:induction false} MoreTurns(f: seq<nat>, npage: nat, end: nat, p: nat, n: nat, m: nat)
    requires |f| == VPNS && 0 < npage && p < PAGES && n <= m && Search(f, npage, end, p, n).Some?
    ensures Search(f, npage, end, p, m) == Search(f, npage, end, p, n)
    decreases n
  {
    if n > 0 {
      var t := TurnAt(f, npage, end, p);
      if t.Again? {
        MoreTurns(f, npage, end, t.next, n - 1, m - 1);
      }
    }
  }

  /** Round once more from 0 is round for ever. */
  lemma {:induction false} GoesRound(f: seq<nat>, npage: nat, end: nat, n: nat, turns: nat)
    requires |f| == VPNS && 0 < npage && 0 < n
    requires forall m :: n <= m ==> Search(f, npage, end, 0, m) == Search(f, npage, end, 0, m - n)
    ensures Search(f, npage, end, 0, turns) == None
    decreases turns
  {
    assert Search(f, npage, end, 0, n) == Search(f, npage, end, 0, n - n);
    if Search(f, npage, end, 0, turns).Some? {
      MoreTurns(f, npage, end, 0, turns, turns + n);
      if turns >= n {
        GoesRound(f, npage, end, n, turns - n);
      } else {
        MoreTurns(f, npage, end, 0, turns, n);
      }
    }
  }

  /** The answer is what the loop returns after some number of turns; without one it never returns. */
  lemma AnswerIsSearch(f: seq<nat>, lo: nat, limit: nat, npage: nat, r: nat)
    requires |f| == VPNS && 0 < npage && lo < PAGES
    ensures
      Answer(f, lo, limit, npage) == Some(r) <==>
      exists turns: nat :: Search(f, npage, EndPage(limit, npage), lo, turns) == Some(r)
  {
    var end := EndPage(limit, npage);
    hide EndPage;
    var n := LapTurns(f, npage, end, lo);
    match LapFrom(f, npage, end, lo) {
      case Returned(s) =>
        SameResult(f, npage, end, lo, n, s);
      case Wrapped =>
        var k := LapTurns(f, npage, end, 0);
        match LapFrom(f, npage, end, 0) {
          case Returned(s) =>
            assert Search(f, npage, end, lo, n + k) == Some(s);
            SameResult(f, npage, end, lo, n + k, s);
          case Wrapped =>
            forall turns: nat
              ensures Search(f, npage, end, lo, turns) == None
            {
              GoesRound(f, npage, end, k, turns);
              if Search(f, npage, end, lo, turns).Some? {
                MoreTurns(f, npage, end, lo, turns, turns + n);
              }
            }
        }
    }
  }

  lemma SameResult(f: seq<nat>, npage: nat, end: nat, p: nat, n: nat, s: nat)
    requires |f| == VPNS && 0 < npage && p < PAGES && Search(f, npage, end, p, n) == Some(s)
    ensures forall turns: nat :: Search(f, npage, end, p, turns) in {None, Some(s)}
  {
    forall turns: nat
      ensures Search(f, npage, end, p, turns) in {None, Some(s)}
    {
      if Search(f, npage, end, p, turns).Some? {
        if turns <= n {
          MoreTurns(f, npage, end, p, turns, n);
        } else {
          MoreTurns(f, npage, end, p, n, turns);
        }
      }
    }
  }

  // ---------------------------------------------------------------- the right answer

  /** npage empty pages start at p, from lo on and below limit. */
  ghost predicate Fits(f: seq<nat>, lo: nat, limit: nat, npage: nat, p: nat)
    requires |f| == VPNS
  {
    lo <= p && p + npage <= limit && forall q :: p <= q < p + npage ==> Avail(f, q)
  }

  ghost predicate NoneBelow(f: seq<nat>, lo: nat, limit: nat, npage: nat, p: nat)
    requires |f| == VPNS
  {
    forall q: nat :: q < p ==> !Fits(f, lo, limit, npage, q)
  }

  ghost predicate NoneFits(f: seq<nat>, lo: nat, limit: nat, npage: nat)
    requires |f| == VPNS
  {
    forall q: nat :: !Fits(f, lo, limit, npage, q)
  }

  /** The lowest range that fits, or 0 for none; a range that starts at 0 is taken for none. */
  ghost predicate Right(f: seq<nat>, lo: nat, limit: nat, npage: nat, answer: Option<nat>)
    requires |f| == VPNS
  {
    && answer.Some?
    && if answer.value != 0 then Fits(f, lo, limit, npage, answer.value) && NoneBelow(f, lo, limit, npage, answer.value)
       else Fits(f, lo, limit, npage, 0) || NoneFits(f, lo, limit, npage)
  }

  /** A page in use rules out every start that would cover it. */
  lemma NotHere(f: seq<nat>, lo: nat, limit: nat, npage: nat, p: nat, b: nat)
    requires |f| == VPNS && NoneBelow(f, lo, limit, npage, p) && p <= b < p + npage && !Avail(f, b)
    ensures NoneBelow(f, lo, limit, npage, b + 1)
  {
    hide Avail;
    forall q: nat | q < b + 1
      ensures !Fits(f, lo, limit, npage, q)
    {
      if p <= q {
        assert q <= b < q + npage;
      }
    }
  }

  /** The turn at a page in use. */
  lemma TurnUsed(f: seq<nat>, npage: nat, end: nat, p: nat)
    requires |f| == VPNS && 0 < npage && p < PAGES && p <= end && !Avail(f, p)
    ensures TurnAt(f, npage, end, p) == Again(if p + 1 < PAGES then p + 1 else 0)
  {
    hide Avail;
    NextPage(p);
  }

  /** The turn at an empty page, away from the top: b is the last page in use, or p if there is none. */
  lemma TurnEmpty(f: seq<nat>, npage: nat, end: nat, p: nat) returns (b: nat)
    requires |f| == VPNS && 0 < npage && p < PAGES && p <= end && Avail(f, p) && p + npage <= PAGES
    ensures p <= b < p + npage
    ensures if b > p then !Avail(f, b) && TurnAt(f, npage, end, p) == Again(if b + 1 < PAGES then b + 1 else 0)
            else TurnAt(f, npage, end, p) == Return(p) && forall q :: p <= q < p + npage ==> Avail(f, q)
  {
    hide Avail;
    DivUnique(p + npage - 1, PAGES, 0, p + npage - 1);
    b := Backward(f, p, p + npage - 1);
    NextPage(b);
  }

  lemma NextPage(b: nat)
    requires b < PAGES
    ensures (b + 1) % PAGES == if b + 1 < PAGES then b + 1 else 0
  {
    if b + 1 < PAGES {
      DivUnique(b + 1, PAGES, 0, b + 1);
    }
  }

  lemma {:induction false} LapFits(f: seq<nat>, lo: nat, limit: nat, npage: nat, p: nat)
    requires |f| == VPNS && 0 < npage <= limit < PAGES && lo <= p < PAGES && NoneBelow(f, lo, limit, npage, p)
    ensures var l := LapFrom(f, npage, limit - npage, p); l.Returned? && Right(f, lo, limit, npage, Some(l.page))
    decreases PAGES - p
  {
    hide Avail, NoneBelow, TurnAt;
    var end := limit - npage;
    if p > end {
      AtEnd(f, lo, limit, npage, p);
      TurnPast(f, npage, end, p);
    } else if !Avail(f, p) {
      NotHere(f, lo, limit, npage, p, p);
      TurnUsed(f, npage, end, p);
      LapFits(f, lo, limit, npage, p + 1);
    } else {
      var b := TurnEmpty(f, npage, end, p);
      if b > p {
        NotHere(f, lo, limit, npage, p, b);
        LapFits(f, lo, limit, npage, b + 1);
      }
    }
  }

  lemma AtEnd(f: seq<nat>, lo: nat, limit: nat, npage: nat, p: nat)
    requires |f| == VPNS && NoneBelow(f, lo, limit, npage, p) && p + npage > limit
    ensures NoneFits(f, lo, limit, npage)
  {
  }

  /** A request no larger than the limit is answered rightly. */
  lemma FittingRequest(f: seq<nat>, lo: nat, limit: nat, npage: nat)
    requires |f| == VPNS && 0 < npage <= limit < PAGES && lo < PAGES
    ensures Right(f, lo, limit, npage, Answer(f, lo, limit, npage))
  {
    DivUnique(limit - npage, PAGES, 0, limit - npage);
    LapFits(f, lo, limit, npage, lo);
  }

  // ---------------------------------------------------------------- requests larger than the limit

  /** A range of empty pages in the table repeated, that ends within the address space. */
  ghost predicate Window(f: seq<nat>, npage: nat, p: nat)
    requires |f| == VPNS
  {
    p + npage <= PAGES && forall q :: p <= q < p + npage ==> Avail(f, q)
  }

  ghost predicate NoWindow(f: seq<nat>, npage: nat, lo: nat, hi: nat)
    requires |f| == VPNS
  {
    forall p: nat :: lo <= p < hi ==> !Window(f, npage, p)
  }

  lemma NoWindowUpTo(f: seq<nat>, npage: nat, lo: nat, p: nat, b: nat)
    requires |f| == VPNS && NoWindow(f, npage, lo, p) && p <= b < p + npage && !Avail(f, b)
    ensures NoWindow(f, npage, lo, b + 1)
  {
    hide Avail;
    forall q: nat | lo <= q < b + 1
      ensures !Window(f, npage, q)
    {
      if p <= q {
        assert q <= b < q + npage;
      }
    }
  }

  /** What a lap from p on returns, given that no window starts between lo and p. */
  ghost predicate Oversize(f: seq<nat>, limit: nat, npage: nat, lo: nat, l: Lap)
    requires |f| == VPNS
  {
    || (l.Returned? && lo <= l.page && Window(f, npage, l.page) && NoWindow(f, npage, lo, l.page))
    || (NoWindow(f, npage, lo, PAGES) && (l.Returned? ==> l.page <= limit))
  }

  lemma TooLate(f: seq<nat>, npage: nat, lo: nat, p: nat)
    requires |f| == VPNS && NoWindow(f, npage, lo, p) && p + npage > PAGES
    ensures NoWindow(f, npage, lo, PAGES)
  {
  }

  lemma {:induction false} LapOversize(f: seq<nat>, limit: nat, npage: nat, lo: nat, p: nat)
    requires |f| == VPNS && limit < npage <= PAGES && lo <= p < PAGES && NoWindow(f, npage, lo, p)
    ensures Oversize(f, limit, npage, lo, LapFrom(f, npage, EndPage(limit, npage), p))
    decreases PAGES - p
  {
    hide Avail, NoWindow, TurnAt;
    DivUnique(limit - npage, PAGES, -1, PAGES + limit - npage);
    var end := PAGES + limit - npage;
    hide EndPage;
    if p > end {
      TooLate(f, npage, lo, p);
      TurnPast(f, npage, end, p);
    } else if !Avail(f, p) {
      NoWindowUpTo(f, npage, lo, p, p);
      TurnUsed(f, npage, end, p);
      if p + 1 < PAGES {
        LapOversize(f, limit, npage, lo, p + 1);
      }
    } else if p + npage <= PAGES {
      var b := TurnEmpty(f, npage, end, p);
      if b > p {
        NoWindowUpTo(f, npage, lo, p, b);
        if b + 1 < PAGES {
          LapOversize(f, limit, npage, lo, b + 1);
        }
      }
    } else {
      TurnWrapped(f, npage, end, p);
      TooLate(f, npage, lo, p);
    }
  }

  /** The turn at an empty page so near the top that the range wraps round: the inner loop looks at nothing. */
  lemma TurnWrapped(f: seq<nat>, npage: nat, end: nat, p: nat)
    requires |f| == VPNS && p < PAGES && npage <= PAGES && p + npage > PAGES && p <= end && Avail(f, p)
    ensures TurnAt(f, npage, end, p) == Return(p + npage - 1 - PAGES)
  {
    hide Avail;
    DivUnique(p + npage - 1, PAGES, 1, p + npage - 1 - PAGES);
  }

  /**
   Answered or not, a larger request gets the lowest window from lo on, if there is one.  If there is none, what
   it gets lies no further than the limit or starts a window below lo; nothing at all fits.
   */
  lemma LargerRequest(f: seq<nat>, lo: nat, limit: nat, npage: nat)
    requires |f| == VPNS && limit < npage <= PAGES && lo < PAGES
    ensures NoneFits(f, lo, limit, npage)
    ensures
      var answer := Answer(f, lo, limit, npage);
      if NoWindow(f, npage, lo, PAGES) then
        answer.Some? ==> answer.value <= limit || (answer.value < lo && Window(f, npage, answer.value))
      else answer.Some? && lo <= answer.value && Window(f, npage, answer.value) && NoWindow(f, npage, lo, answer.value)
  {
    hide Avail;
    StartHere(f, npage, lo);
    StartHere(f, npage, 0);
    LapOversize(f, limit, npage, lo, lo);
    LapOversize(f, limit, npage, 0, 0);
    hide LapFrom, EndPage;
  }

  lemma StartHere(f: seq<nat>, npage: nat, lo: nat)
    requires |f| == VPNS
    ensures NoWindow(f, npage, lo, lo)
  {
  }

  /** Its answer is right exactly when it is none. */
  lemma LargerIsRight(f: seq<nat>, lo: nat, limit: nat, npage: nat)
    requires |f| == VPNS && limit < npage <= PAGES && lo < PAGES
    ensures Right(f, lo, limit, npage, Answer(f, lo, limit, npage)) <==> Answer(f, lo, limit, npage) == Some(0)
  {
    LargerRequest(f, lo, limit, npage);
  }

  /** With every page empty, a larger request that fits the address space is given the first page searched. */
  lemma EmptyTableMisleads(f: seq<nat>, lo: nat, limit: nat, npage: nat)
    requires |f| == VPNS && (forall v :: 0 <= v < VPNS ==> f[v] == 0) && limit < npage && 0 < lo && lo + npage <= PAGES
    ensures Answer(f, lo, limit, npage) == Some(lo) && NoneFits(f, lo, limit, npage)
    ensures !Right(f, lo, limit, npage, Answer(f, lo, limit, npage))
  {
    LargerRequest(f, lo, limit, npage);
    assert Window(f, npage, lo);
  }

  /** For instance a gigabyte and a page, with a gigabyte in all: the answer is the first page, and the range ends past the limit. */
  lemma OneGigabyteAndAPage()
    ensures
      var f, lo, limit, npage := seq(VPNS, _ => 0), 0x100, 0x4_0000, 0x4_0001;
      Answer(f, lo, limit, npage) == Some(lo) && NoneFits(f, lo, limit, npage) && lo + npage > limit
  {
    EmptyTableMisleads(seq(VPNS, _ => 0), 0x100, 0x4_0000, 0x4_0001);
  }

  /** An answer from a later page on is right only if no range of empty pages starts there. */
  lemma RightOnlyWithoutWindow(f: seq<nat>, lo: nat, limit: nat, npage: nat)
    requires |f| == VPNS && limit < npage <= PAGES && 0 < lo < PAGES && Right(f, lo, limit, npage, Answer(f, lo, limit, npage))
    ensures NoWindow(f, npage, lo, PAGES)
  {
    LargerRequest(f, lo, limit, npage);
  }

  /**
   Having none is not enough.  With only page 0 of the table in use, a request for a page more than the table has is
   given page 1: the range of the last candidate wraps round, and the inner loop looks at nothing.
   */
  lemma NoWindowStillMisleads(f: seq<nat>, lo: nat, limit: nat)
    requires |f| == VPNS && (forall v :: 0 <= v < VPNS ==> (f[v] == 0 <==> v != 0)) && 0 < lo < limit <= VPNS
    ensures NoWindow(f, VPNS + 1, lo, PAGES) && Answer(f, lo, limit, VPNS + 1) == Some(1)
    ensures !Right(f, lo, limit, VPNS + 1, Answer(f, lo, limit, VPNS + 1))
  {
    var npage, end := VPNS + 1, PAGES + limit - VPNS - 1;
    DivUnique(limit - npage, PAGES, -1, end);
    forall p: nat | lo <= p < PAGES
      ensures !Window(f, npage, p)
    {
      var q := (p + VPNS) / VPNS * VPNS;
      DivUnique(q, VPNS, (p + VPNS) / VPNS, 0);
      assert p <= q < p + npage && !Avail(f, q);
    }
    LargerRequest(f, lo, limit, npage);
    Hop(f, npage, end, 0, lo);
    Hops(f, end, 1);
  }

  const LAPS: int := 0x200_0000    // PAGES / VPNS

  /** From a page of the k-th repetition of the table the search goes on behind the next page in use. */
  lemma Hop(f: seq<nat>, npage: nat, end: nat, k: nat, p: nat)
    requires |f| == VPNS && (forall v :: 0 <= v < VPNS ==> (f[v] == 0 <==> v != 0)) && npage == VPNS + 1
    requires k < LAPS - 1 && k * VPNS < p < (k + 1) * VPNS && p <= k * VPNS + VPNS && p <= end
    requires p + npage <= PAGES && p + npage <= (k + 2) * VPNS
    ensures TurnAt(f, npage, end, p) == Again((k + 1) * VPNS + 1)
  {
    PageZeroOnly(f, p, k);
    PageZeroOnly(f, (k + 1) * VPNS, k + 1);
    hide TurnAt, Avail;
    var b := TurnEmpty(f, npage, end, p);
    if b > p {
      PageZeroOnly(f, b, if b < (k + 1) * VPNS then k else k + 1);
      NextPage(b);
    }
  }

  lemma PageZeroOnly(f: seq<nat>, p: nat, k: nat)
    requires |f| == VPNS && (forall v :: 0 <= v < VPNS ==> (f[v] == 0 <==> v != 0)) && k * VPNS <= p < k * VPNS + VPNS
    ensures Avail(f, p) <==> p != k * VPNS
  {
    DivUnique(p, VPNS, k, p - k * VPNS);
  }

  lemma {:induction false} Hops(f: seq<nat>, end: nat, k: nat)
    requires |f| == VPNS && (forall v :: 0 <= v < VPNS ==> (f[v] == 0 <==> v != 0)) && 1 <= k < LAPS && PAGES - VPNS + 1 <= end
    ensures LapFrom(f, VPNS + 1, end, k * VPNS + 1) == Returned(1)
    decreases LAPS - k
  {
    hide TurnAt;
    var p := k * VPNS + 1;
    if k < LAPS - 1 {
      Hop(f, VPNS + 1, end, k, p);
      Hops(f, end, k + 1);
    } else {
      DivUnique(p, VPNS, k, 1);
      TurnWrapped(f, VPNS + 1, end, p);
    }
  }

  /** What every table can be searched for rightly is exactly a request no larger than the limit. */
  lemma SearchIsRight(lo: nat, limit: nat, npage: nat)
    requires 0 < lo < limit <= VPNS && 0 < npage <= PAGES
    ensures (forall f: seq<nat> :: |f| == VPNS ==> Right(f, lo, limit, npage, Answer(f, lo, limit, npage))) <==> npage <= limit
  {
    hide Answer, Right;
    if npage <= limit {
      forall f: seq<nat> | |f| == VPNS
        ensures Right(f, lo, limit, npage, Answer(f, lo, limit, npage))
      {
        FittingRequest(f, lo, limit, npage);
      }
    } else {
      var f := MisleadingTable(lo, limit, npage);
      assert !Right(f, lo, limit, npage, Answer(f, lo, limit, npage));
    }
  }

  /** A table with at most one page in use, on which a larger request is answered with a page. */
  lemma MisleadingTable(lo: nat, limit: nat, npage: nat) returns (f: seq<nat>)
    requires 0 < lo < limit <= VPNS && limit < npage <= PAGES
    ensures |f| == VPNS && !Right(f, lo, limit, npage, Answer(f, lo, limit, npage))
  {
    f := seq(VPNS, _ => 0);
    if lo + npage <= PAGES {
      EmptyTableMisleads(f, lo, limit, npage);
    } else if lo + npage == PAGES + 1 {
      f := f[lo := 1];
      SecondPageWraps(f, lo, limit, npage);
    } else {
      FirstPageWraps(f, lo, limit, npage);
    }
  }

  lemma FirstPageWraps(f: seq<nat>, lo: nat, limit: nat, npage: nat)
    requires |f| == VPNS && 0 < lo < limit <= VPNS && limit < npage <= PAGES && lo + npage > PAGES + 1 && f[lo] == 0
    ensures !Right(f, lo, limit, npage, Answer(f, lo, limit, npage))
  {
    DivUnique(lo, VPNS, 0, lo);
    DivUnique(limit - npage, PAGES, -1, PAGES + limit - npage);
    TurnWrapped(f, npage, PAGES + limit - npage, lo);
    assert LapFrom(f, npage, EndPage(limit, npage), lo) == Returned(lo + npage - 1 - PAGES);
  }

  lemma SecondPageWraps(f: seq<nat>, lo: nat, limit: nat, npage: nat)
    requires |f| == VPNS && 0 < lo < limit <= VPNS && limit < npage <= PAGES && lo + npage == PAGES + 1
    requires forall v :: 0 <= v < VPNS ==> (f[v] == 0 <==> v != lo)
    ensures !Right(f, lo, limit, npage, Answer(f, lo, limit, npage))
  {
    var end := PAGES + limit - npage;
    DivUnique(lo, VPNS, 0, lo);
    DivUnique(limit - npage, PAGES, -1, end);
    assert (lo + 1) % VPNS != lo;
    TurnUsed(f, npage, end, lo);
    TurnWrapped(f, npage, end, lo + 1);
    hide TurnAt;
    assert LapFrom(f, npage, end, lo + 1) == Returned(1);
  }
}
