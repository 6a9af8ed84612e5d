/** How many pages a run of requests can open: the requests that go to a page and to the one opened after it
    together exceed what a page holds. Shared by the raw calls and the protocol. */
module PageBound {
  import opened ArenaModel

  /** `paid` bytes and one more for every two pages: floor(m/2) * (paid + 1). */
  function PairBound(m: nat, paid: nat): nat {
    if m < 2 then 0 else paid + 1 + PairBound(m - 2, paid)
  }

  lemma {:induction false} PairBoundIsProduct(m: nat, paid: nat)
    ensures PairBound(m, paid) == (m / 2) * (paid + 1)
  {
    if m >= 2 {
      PairBoundIsProduct(m - 2, paid);
      assert m / 2 == (m - 2) / 2 + 1;
      assert (m / 2) * (paid + 1) == ((m - 2) / 2) * (paid + 1) + (paid + 1);
    }
  }

  lemma {:induction false} OddPageIsFree(m: nat, paid: nat)
    requires m % 2 == 0
    ensures PairBound(m + 1, paid) == PairBound(m, paid)
  {
    if m >= 2 {
      OddPageIsFree(m - 2, paid);
    }
  }

  lemma {:induction false} PairBoundGrows(m: nat, n: nat, paid: nat)
    requires m <= n
    ensures PairBound(m, paid) <= PairBound(n, paid)
  {
    if m >= 2 {
      PairBoundGrows(m - 2, n - 2, paid);
    }
  }

  /** All demand so far is `total`, that since the current page was opened is `recent`, and the cursor is no farther
      into the page than that and `gap`. The pages after the first k pair up: the demand on two successive
      ones exceeds `paid`. Once there is such a page, no earlier one is recycled any more. */
  ghost predicate Paired(ar: Arena, gap: nat, paid: nat, k: nat, total: int, recent: int) {
    && k <= |ar.pages| && 0 <= recent <= total
    && var m: nat := |ar.pages| - k;
    && (m > 0 ==>
          && ar.pageIndex == |ar.pages| - 1
          && ar.current - ar.pages[ar.pageIndex] <= gap + recent)
    && total - (if m % 2 == 1 then recent else 0) >= PairBound(m, paid)
  }

  lemma PairStep(m: nat, p: nat, total: int, recent: int, ask: int)
    requires 0 <= recent <= total && ask >= 0
    requires total - (if m % 2 == 1 then recent else 0) >= PairBound(m, p)
    requires m > 0 ==> recent + ask >= p + 1
    ensures total + ask - (if (m + 1) % 2 == 1 then ask else 0) >= PairBound(m + 1, p)
  {
    if m % 2 == 1 {
      OddPageIsFree(m - 1, p);
    } else {
      OddPageIsFree(m, p);
    }
  }

  /** One page is opened for a demand of `ask`: an earlier one that was kept, or a new one at the end of the list. */
  lemma OpenPaired(ar: Arena, br: Arena, gap: nat, paid: nat, k: nat, total: int, recent: int, ask: int)
    requires Paired(ar, gap, paid, k, total, recent) && ask >= 0
    requires |ar.pages| > k ==> recent + ask > paid
    requires br.pageIndex < |br.pages| && br.current - br.pages[br.pageIndex] <= gap + ask
    requires if |br.pages| == |ar.pages| then |ar.pages| <= k
             else |br.pages| == |ar.pages| + 1 && br.pageIndex == |ar.pages|
    ensures Paired(br, gap, paid, k, total + ask, ask)
  {
    PairStep(|ar.pages| - k, paid, total, recent, ask);
  }

  /** A reset that keeps no page leaves none to pay for. */
  lemma ForgetPages(w: World, count: nat, gap: nat, paid: nat, k: nat, total: int, recent: int)
    requires count == 0 && Paired(w.ar, gap, paid, k, total, recent)
    ensures Paired(ResetKeep(w, count).ar, gap, paid, 0, total, 0)
  {
  }
}
