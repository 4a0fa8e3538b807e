/** The pagination controller: the page count derived from the server's item
    count (src/Home.js) and the Previous / number / Next buttons of the
    Pagination component (src/Pagination.js). */
module Pagination {
  import opened Wrappers

  /** Items per page, fixed by the server. */
  const PageSize: nat := 5

  /** `Math.ceil(count / 5)`: the least number of pages that holds `count` items. */
  function PageCount(count: nat): (r: nat)
    ensures r * PageSize >= count
    ensures r > 0 ==> (r - 1) * PageSize < count
  {
    (count + PageSize - 1) / PageSize
  }

  /** No smaller page count holds all the items, so the count is the ceiling. */
  lemma PageCountIsLeast(count: nat, n: nat)
    requires n * PageSize >= count
    ensures PageCount(count) <= n
  {
  }

  /** Twelve items make three pages, so page 3 has a button and page 4 has none. */
  lemma PageCountTwelve()
    ensures PageCount(12) == 3
    ensures 3 in PageNumbers(PageCount(12)) && 4 !in PageNumbers(PageCount(12))
  {
    PageNumbersAreOneToTotal(3);
  }

  /** The numbers on the page buttons: 1 to totalPages, one per page. */
  function PageNumbers(totalPages: nat): (r: seq<int>)
    ensures |r| == totalPages
    ensures forall i :: 0 <= i < |r| ==> r[i] == i + 1
  {
    seq(totalPages, i => i + 1)
  }

  /** The numbered buttons are exactly the pages 1 to totalPages, in increasing
      order, and there are none when there are no pages. */
  lemma PageNumbersAreOneToTotal(totalPages: nat)
    ensures forall n :: n in PageNumbers(totalPages) <==> 1 <= n <= totalPages
    ensures forall i, j :: 0 <= i < j < totalPages ==> PageNumbers(totalPages)[i] < PageNumbers(totalPages)[j]
    ensures PageNumbers(totalPages) == [] <==> totalPages == 0
  {
    var r := PageNumbers(totalPages);
    forall n | 1 <= n <= totalPages ensures n in r {
      assert r[n - 1] == n;
    }
  }

  /** How many buttons among `numbers` carry the 'active' class: none exactly
      when the current page has no button. */
  function CountActive(numbers: seq<int>, currentPage: int): (r: nat)
    ensures r <= |numbers|
    ensures r == 0 <==> currentPage !in numbers
  {
    if |numbers| == 0 then 0
    else (if numbers[0] == currentPage then 1 else 0) + CountActive(numbers[1..], currentPage)
  }

  lemma {:induction false} CountActiveIncreasing(numbers: seq<int>, currentPage: int)
    requires forall i, j :: 0 <= i < j < |numbers| ==> numbers[i] < numbers[j]
    ensures CountActive(numbers, currentPage) == if currentPage in numbers then 1 else 0
  {
    if |numbers| > 0 {
      CountActiveIncreasing(numbers[1..], currentPage);
      assert numbers == [numbers[0]] + numbers[1..];
      if numbers[0] == currentPage {
        assert currentPage !in numbers[1..];
      }
    }
  }

  /** Exactly one page button is marked active when the current page is one of
      the pages, and none otherwise. */
  lemma ExactlyOneActive(currentPage: int, totalPages: nat)
    ensures CountActive(PageNumbers(totalPages), currentPage) ==
            if 1 <= currentPage <= totalPages then 1 else 0
  {
    PageNumbersAreOneToTotal(totalPages);
    CountActiveIncreasing(PageNumbers(totalPages), currentPage);
  }

  /** The three kinds of button. */
  datatype Button = Previous | Next | Number(n: int)

  predicate PreviousDisabled(currentPage: int)
  {
    currentPage == 1
  }

  /** The Next button's `disabled` attribute as the component computes it. */
  predicate NextDisabledAsWritten(currentPage: int, totalPages: nat)
  {
    currentPage == totalPages
  }

  /** The Next button's `disabled` condition as evidently intended: there is no
      later page. */
  predicate NextDisabled(currentPage: int, totalPages: nat)
  {
    currentPage >= totalPages
  }

  /** The page a click selects, as the component is written; `None` when the
      button is disabled or not rendered (a number outside the page list). */
  function ClickAsWritten(b: Button, currentPage: int, totalPages: nat): (r: Option<int>)
    ensures b == Previous ==> (r.None? <==> PreviousDisabled(currentPage))
    ensures b == Next ==> (r.None? <==> NextDisabledAsWritten(currentPage, totalPages))
    ensures b == Previous && r.Some? ==> r.value == currentPage - 1
    ensures b == Next && r.Some? ==> r.value == currentPage + 1
    ensures b.Number? ==> r == if 1 <= b.n <= totalPages then Some(b.n) else None
  {
    PageNumbersAreOneToTotal(totalPages);
    match b
    case Previous => if PreviousDisabled(currentPage) then None else Some(currentPage - 1)
    case Next => if NextDisabledAsWritten(currentPage, totalPages) then None else Some(currentPage + 1)
    case Number(n) => if n in PageNumbers(totalPages) then Some(n) else None
  }

  /** With at least one page and the current page among them, every enabled
      button of the component as written selects a page among them. */
  lemma ClickAsWrittenKeepsRange(b: Button, currentPage: int, totalPages: nat)
    requires 1 <= currentPage <= totalPages
    ensures var r := ClickAsWritten(b, currentPage, totalPages);
      r.Some? ==> 1 <= r.value <= totalPages
  {
  }

  /** When the server reports no items there are no pages, yet Next is enabled
      on page 1 and moves to page 2, a page that does not exist; and from there
      on it stays enabled and keeps moving forward. */
  lemma NextEnabledPastLastPage(k: nat)
    ensures PageCount(0) == 0
    ensures !NextDisabledAsWritten(1, PageCount(0))
    ensures ClickAsWritten(Next, 1, PageCount(0)) == Some(2)
    ensures ClickAsWritten(Next, k + 1, PageCount(0)) == Some(k + 2)
  {
  }

  function Max(a: int, b: int): int
  {
    if a >= b then a else b
  }

  /** The page a click selects with the corrected Next condition. Previous moves
      back one page unless on page 1; Next moves forward one page unless on or
      past the last page; a number button selects its number. */
  function Click(b: Button, currentPage: int, totalPages: nat): (r: Option<int>)
    ensures b == Previous ==> r == if currentPage == 1 then None else Some(currentPage - 1)
    ensures b == Next ==> r == if currentPage >= totalPages then None else Some(currentPage + 1)
    ensures b.Number? ==> r == if 1 <= b.n <= totalPages then Some(b.n) else None
  {
    PageNumbersAreOneToTotal(totalPages);
    match b
    case Previous => if PreviousDisabled(currentPage) then None else Some(currentPage - 1)
    case Next => if NextDisabled(currentPage, totalPages) then None else Some(currentPage + 1)
    case Number(n) => if n in PageNumbers(totalPages) then Some(n) else None
  }

  /** Whenever the current page is one of the pages the two versions agree:
      the correction only changes what happens on a page past the last. */
  lemma ClickAgreesInRange(b: Button, currentPage: int, totalPages: nat)
    requires 1 <= currentPage <= totalPages
    ensures Click(b, currentPage, totalPages) == ClickAsWritten(b, currentPage, totalPages)
  {
  }

  /** The controller invariant `1 <= currentPage <= max(totalPages, 1)` holds
      after every enabled click, including when there are no pages. */
  lemma ClickKeepsPageInRange(b: Button, currentPage: int, totalPages: nat)
    requires 1 <= currentPage <= Max(totalPages, 1)
    ensures var r := Click(b, currentPage, totalPages);
      r.Some? ==> 1 <= r.value <= Max(totalPages, 1)
  {
  }

  /** The page reached after a series of clicks with the corrected Next rule;
      disabled clicks do nothing. The series ends on a numbered page whenever
      its last click is that page's button, and with no clicks the page stays
      where it is. */
  function Run(clicks: seq<Button>, currentPage: int, totalPages: nat): (r: int)
    ensures |clicks| == 0 ==> r == currentPage
    ensures |clicks| > 0 && clicks[|clicks| - 1].Number? && 1 <= clicks[|clicks| - 1].n <= totalPages ==>
              r == clicks[|clicks| - 1].n
  {
    if |clicks| == 0 then currentPage
    else
      var next := Click(clicks[0], currentPage, totalPages);
      Run(clicks[1..], next.GetOr(currentPage), totalPages)
  }

  /** No series of clicks leaves the pages. */
  lemma {:induction false} RunKeepsPageInRange(clicks: seq<Button>, currentPage: int, totalPages: nat)
    requires 1 <= currentPage <= Max(totalPages, 1)
    ensures 1 <= Run(clicks, currentPage, totalPages) <= Max(totalPages, 1)
  {
    if |clicks| > 0 {
      ClickKeepsPageInRange(clicks[0], currentPage, totalPages);
      RunKeepsPageInRange(clicks[1..], Click(clicks[0], currentPage, totalPages).GetOr(currentPage), totalPages);
    }
  }

  /** The page reached after a series of clicks on the component as written;
      disabled clicks do nothing. */
  function RunAsWritten(clicks: seq<Button>, currentPage: int, totalPages: nat): (r: int)
    ensures |clicks| == 0 ==> r == currentPage
    ensures |clicks| > 0 && clicks[|clicks| - 1].Number? && 1 <= clicks[|clicks| - 1].n <= totalPages ==>
              r == clicks[|clicks| - 1].n
  {
    if |clicks| == 0 then currentPage
    else
      var next := ClickAsWritten(clicks[0], currentPage, totalPages);
      RunAsWritten(clicks[1..], next.GetOr(currentPage), totalPages)
  }

  /** With at least one page and the current page among them, no series of
      clicks on the component as written leaves the pages. */
  lemma {:induction false} RunAsWrittenKeepsRange(clicks: seq<Button>, currentPage: int, totalPages: nat)
    requires 1 <= currentPage <= totalPages
    ensures 1 <= RunAsWritten(clicks, currentPage, totalPages) <= totalPages
  {
    if |clicks| > 0 {
      ClickAsWrittenKeepsRange(clicks[0], currentPage, totalPages);
      RunAsWrittenKeepsRange(clicks[1..],
        ClickAsWritten(clicks[0], currentPage, totalPages).GetOr(currentPage), totalPages);
    }
  }

  /** With no items, the component as written leaves the pages after one click
      on Next, while the corrected controller stays on page 1. */
  lemma RunAsWrittenLeavesPages()
    ensures RunAsWritten([Next], 1, PageCount(0)) == 2 > Max(PageCount(0), 1)
    ensures Run([Next], 1, PageCount(0)) == 1
  {
  }
}
