/**
 * The pagination of the question list on the home page (app/page.tsx):
 * ten questions per page, the inclusive row range fetched for a page, the
 * page count with a floor of one, the Previous/Next clamps, the sliding
 * window of at most seven page buttons, and the description excerpt.
 * Page state lives in a `Pager`, standing for the `currentPage` and
 * `totalPages` state hooks and the question list they drive.
 */
module HomePage {
  import opened Common

  const QuestionsPerPage: nat := 10

  // ---------------------------------------------------------------------
  // The fetched range
  // ---------------------------------------------------------------------

  /** `query.range(from, to)`: an inclusive range of row offsets. */
  datatype RowRange = RowRange(from: int, to: int)

  /** The range fetched for `page`: ten consecutive rows, page 1 from row 0. */
  function PageRange(page: int): (r: RowRange)
    ensures r.to - r.from + 1 == QuestionsPerPage
    ensures page >= 1 ==> r.from >= 0
  {
    var from := (page - 1) * QuestionsPerPage;
    RowRange(from, from + QuestionsPerPage - 1)
  }

  /** Row `k` is fetched on exactly one page: page `k / 10 + 1`. */
  lemma RowOnPage(page: int, k: nat)
    requires page >= 1
    ensures PageRange(page).from <= k <= PageRange(page).to <==> page == k / QuestionsPerPage + 1
  {
    var p := k / QuestionsPerPage + 1;
    assert (p - 1) * QuestionsPerPage <= k < p * QuestionsPerPage;
    if page < p {
      assert (page - 1) * QuestionsPerPage + QuestionsPerPage <= (p - 1) * QuestionsPerPage;
    } else if page > p {
      assert (page - 1) * QuestionsPerPage >= p * QuestionsPerPage;
    }
  }

  /**
   * The rows a range query returns from the ordered result `all`: those
   * with offsets in `[from, to]` that exist.
   */
  function PageRows<T>(all: seq<T>, page: int): (rows: seq<T>)
    requires page >= 1
    ensures |rows| <= QuestionsPerPage
    ensures rows == [] || PageRange(page).from + |rows| <= |all|
    ensures forall j :: 0 <= j < |rows| ==> rows[j] == all[PageRange(page).from + j]
    ensures PageRange(page).from < |all| ==> |rows| == Min(QuestionsPerPage, |all| - PageRange(page).from)
  {
    var r := PageRange(page);
    if r.from >= |all| then [] else all[r.from..Min(r.to + 1, |all|)]
  }

  // ---------------------------------------------------------------------
  // Page count
  // ---------------------------------------------------------------------

  /** `Math.ceil(n / d)` on whole numbers: the fewest blocks of `d` that hold `n`. */
  function CeilDiv(n: nat, d: nat): (q: nat)
    requires d > 0
    ensures n <= q * d < n + d
  {
    (n + d - 1) / d
  }

  /** `Math.max(1, Math.ceil((count || 0) / 10))`. */
  function TotalPages(count: Option<nat>): (t: nat)
    ensures t >= 1
  {
    var c := match count case None => 0 case Some(n) => n;
    Max(1, CeilDiv(c, QuestionsPerPage)) as nat
  }

  /**
   * The count is the least number of pages that hold every row: the last
   * page is non-empty unless there is no row at all, and every row lies on
   * a page within the count.
   */
  lemma TotalPagesTight(count: nat)
    ensures var t := TotalPages(Some(count));
      (count == 0 ==> t == 1)
      && (count > 0 ==> (t - 1) * QuestionsPerPage < count <= t * QuestionsPerPage)
  {
    var t := TotalPages(Some(count));
    if count > 0 {
      var q := (count + 9) / 10;
      assert t == q;
      assert 10 * q <= count + 9 < 10 * q + 10;
    }
  }

  /** A missing count reads as no rows. */
  lemma TotalPagesMissingCount()
    ensures TotalPages(None) == TotalPages(Some(0)) == 1
  {
  }

  /**
   * Every row of the result lies on some page from 1 to the page count,
   * at its offset within that page.
   */
  lemma {:induction false} EveryRowOnAPage<T>(all: seq<T>, k: nat)
    requires k < |all|
    ensures var p := k / QuestionsPerPage + 1;
      1 <= p <= TotalPages(Some(|all|))
      && k % QuestionsPerPage < |PageRows(all, p)|
      && PageRows(all, p)[k % QuestionsPerPage] == all[k]
  {
    var p := k / QuestionsPerPage + 1;
    TotalPagesTight(|all|);
    RowOnPage(p, k);
    assert PageRange(p).from + k % QuestionsPerPage == k;
  }

  /** Pages past the count fetch nothing. */
  lemma PagesPastCountEmpty<T>(all: seq<T>, page: int)
    requires page > TotalPages(Some(|all|))
    ensures PageRows(all, page) == []
  {
    TotalPagesTight(|all|);
    var t := TotalPages(Some(|all|));
    assert (page - 1) * QuestionsPerPage >= t * QuestionsPerPage;
  }

  // ---------------------------------------------------------------------
  // Previous / Next and the page window
  // ---------------------------------------------------------------------

  /** The Previous button: `Math.max(1, currentPage - 1)`. */
  function PreviousPage(current: int): (p: int)
    ensures p >= 1
    ensures current > 1 ==> p == current - 1
    ensures current <= 1 ==> p == 1
  {
    Max(1, current - 1)
  }

  /** The Next button: `Math.min(totalPages, currentPage + 1)`. */
  function NextPage(current: int, total: nat): (p: int)
    ensures p <= total
    ensures current < total ==> p == current + 1
    ensures current >= total ==> p == total
  {
    Min(total, current + 1)
  }

  /** Previous and Next undo each other away from the ends. */
  lemma PreviousNextInverse(current: int, total: nat)
    ensures 1 <= current < total ==> PreviousPage(NextPage(current, total)) == current
    ensures 1 < current <= total ==> NextPage(PreviousPage(current), total) == current
  {
  }

  /** Previous is disabled on page 1, Next on the last page. */
  predicate PreviousDisabled(current: int) { current == 1 }
  predicate NextDisabled(current: int, total: nat) { current == total }

  /** An enabled button moves the page; a disabled one would leave it. */
  lemma ButtonsDisabledAtEnds(current: int, total: nat)
    requires 1 <= current
    ensures PreviousDisabled(current) <==> PreviousPage(current) == current
    ensures NextDisabled(current, total) <==> NextPage(current, total) == current
  {
  }

  /** The bar is rendered only when there is more than one page. */
  predicate ShowPagination(total: nat) { total > 1 }

  /** The bar appears exactly when the count exceeds one page of questions. */
  lemma ShowPaginationIff(count: Option<nat>)
    ensures ShowPagination(TotalPages(count)) <==> count.Some? && count.value > QuestionsPerPage
  {
  }

  /**
   * Number of the `i`-th page button, by the four branches of the
   * page-button code: short list, near the start, near the end, centred.
   */
  function PageNumber(current: int, total: nat, i: nat): (n: int)
    ensures i < Min(7, total) ==> 1 <= n <= total
  {
    if total <= 7 then i + 1
    else if current <= 4 then i + 1
    else if current >= total - 3 then total - 6 + i
    else current - 3 + i
  }

  /**
   * The page buttons: `min(7, totalPages)` consecutive numbers, all from
   * 1 to `totalPages`, whatever `currentPage` is (it may be stale).
   */
  function PageWindow(current: int, total: nat): (w: seq<int>)
    ensures |w| == Min(7, total)
    ensures forall i :: 0 <= i < |w| - 1 ==> w[i + 1] == w[i] + 1
    ensures forall i :: 0 <= i < |w| ==> 1 <= w[i] <= total
  {
    seq(Min(7, total), i requires 0 <= i => PageNumber(current, total, i))
  }

  /** A current page within range has a button. */
  lemma WindowContainsCurrent(current: int, total: nat)
    requires 1 <= current <= total
    ensures current in PageWindow(current, total)
  {
    var w := PageWindow(current, total);
    var i := current - w[0];
    assert w[i] == current;
  }

  /** At most one button is the active one. */
  lemma WindowActiveUnique(current: int, total: nat, i: nat, j: nat)
    requires i < j < |PageWindow(current, total)|
    ensures PageWindow(current, total)[i] < PageWindow(current, total)[j]
  {
  }

  /** Away from both ends of a long list the current page is the middle button. */
  lemma WindowCentred(current: int, total: nat)
    requires total > 7 && 4 < current < total - 3
    ensures PageWindow(current, total)[3] == current
  {
  }

  // ---------------------------------------------------------------------
  // The excerpt
  // ---------------------------------------------------------------------

  /** `description.substring(0, 200)` followed by an ellipsis, always. */
  function Excerpt(description: string): (e: string)
    ensures |e| == Min(200, |description|) + 3
    ensures e[..|e| - 3] == description[..Min(200, |description|)]
    ensures e[|e| - 3..] == "..."
  {
    description[..Min(200, |description|)] + "..."
  }

  /** A short description is shown whole. */
  lemma ExcerptOfShort(description: string)
    requires |description| <= 200
    ensures Excerpt(description) == description + "..."
  {
  }

  // ---------------------------------------------------------------------
  // Page state
  // ---------------------------------------------------------------------

  /**
   * The state hooks behind the list: the current page, the page count and
   * the fetched page of question ids, and the loading flag. The current
   * page is never below 1, but it may exceed the page count: it is not
   * reset when the search changes.
   */
  class Pager {
    var currentPage: int
    var totalPages: nat
    var questions: seq<nat>
    var isLoading: bool

    ghost predicate Valid()
      reads this
    {
      currentPage >= 1 && totalPages >= 1 && |questions| <= QuestionsPerPage
    }

    constructor ()
      ensures Valid()
      ensures currentPage == 1 && totalPages == 1 && questions == [] && isLoading
    {
      currentPage := 1;
      totalPages := 1;
      questions := [];
      isLoading := true;
    }

    /**
     * `fetchQuestions` against the ordered, filtered result `all`: on
     * success the list becomes the current page's rows and the count comes
     * from the number of rows; a failure is only logged. Loading ends
     * either way.
     */
    method Fetch(all: seq<nat>, fails: bool)
      requires Valid()
      modifies this
      ensures Valid() && !isLoading && currentPage == old(currentPage)
      ensures fails ==> questions == old(questions) && totalPages == old(totalPages)
      ensures !fails ==>
        questions == PageRows(all, currentPage) && totalPages == TotalPages(Some(|all|))
    {
      isLoading := true;
      if !fails {
        questions := PageRows(all, currentPage);
        totalPages := TotalPages(Some(|all|));
      }
      isLoading := false;
    }

    /** The Previous button. */
    method Previous()
      requires Valid()
      modifies this
      ensures Valid() && totalPages == old(totalPages) && questions == old(questions) && isLoading == old(isLoading)
      ensures currentPage == PreviousPage(old(currentPage))
    {
      currentPage := PreviousPage(currentPage);
    }

    /** The Next button; from a stale page beyond the count it goes back to the last page. */
    method Next()
      requires Valid()
      modifies this
      ensures Valid() && totalPages == old(totalPages) && questions == old(questions) && isLoading == old(isLoading)
      ensures currentPage == NextPage(old(currentPage), old(totalPages))
    {
      currentPage := NextPage(currentPage, totalPages);
    }

    /** The `i`-th page button. */
    method SelectButton(i: nat)
      requires Valid() && i < |PageWindow(currentPage, totalPages)|
      modifies this
      ensures Valid() && totalPages == old(totalPages) && questions == old(questions) && isLoading == old(isLoading)
      ensures currentPage == PageWindow(old(currentPage), old(totalPages))[i]
      ensures 1 <= currentPage <= totalPages
    {
      currentPage := PageWindow(currentPage, totalPages)[i];
    }
  }
}
