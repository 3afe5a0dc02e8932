/**
 * The pagination arithmetic shared by the codes and logs pages: the current
 * page from `$_GET['paged']`, `LIMIT 50 OFFSET (page - 1) * 50`, and
 * `ceil(total / 50)` pages. Both pages list rows `ORDER BY created_at DESC`;
 * rows are inserted in time order, so that is the table read backwards.
 */
module Paging {
  import opened Wrappers

  const PerPage: nat := 50

  /** `isset($_GET['paged']) ? max(1, intval($_GET['paged'])) : 1`. */
  function CurrentPage(requested: Option<int>): (p: int)
    ensures p >= 1
    ensures requested.Some? && requested.value >= 1 ==> p == requested.value
    ensures requested.None? || requested.value < 1 ==> p == 1
  {
    if requested.Some? then (if requested.value > 1 then requested.value else 1) else 1
  }

  /** `($paged - 1) * $per_page`. */
  function Offset(page: int): (off: nat)
    requires page >= 1
    ensures off % PerPage == 0 && off / PerPage == page - 1
  {
    (page - 1) * PerPage
  }

  /** `ceil($total_items / $per_page)`. */
  function TotalPages(total: nat): (pages: nat)
    ensures pages * PerPage >= total
    ensures pages == 0 || (pages - 1) * PerPage < total
  {
    (total + PerPage - 1) / PerPage
  }

  function Min(a: int, b: int): int {
    if a <= b then a else b
  }

  /** `LIMIT 50 OFFSET (page - 1) * 50` over the selected rows. */
  function Page<T>(rows: seq<T>, page: int): (r: seq<T>)
    requires page >= 1
    ensures |r| <= PerPage
    ensures Offset(page) + PerPage <= |rows| ==> |r| == PerPage
    ensures Offset(page) < |rows| ==> |r| == Min(PerPage, |rows| - Offset(page))
    ensures forall i :: 0 <= i < |r| ==> Offset(page) + i < |rows| && r[i] == rows[Offset(page) + i]
    ensures forall x :: x in r ==> x in rows
  {
    rows[Min(Offset(page), |rows|)..Min(Offset(page) + PerPage, |rows|)]
  }

  /** `ORDER BY created_at DESC`, for rows inserted in time order. */
  function NewestFirst<T>(rows: seq<T>): (r: seq<T>)
    ensures |r| == |rows|
    ensures forall i :: 0 <= i < |r| ==> r[i] == rows[|rows| - 1 - i]
    ensures forall x :: x in r ==> x in rows
  {
    seq(|rows|, i requires 0 <= i < |rows| => rows[|rows| - 1 - i])
  }

  /** Entry `i` of a page of the newest-first listing is the row at position
      offset + i counted from the end, and a page before the last one is full. */
  lemma NewestPage<T>(rows: seq<T>, page: int)
    requires page >= 1
    ensures forall i :: 0 <= i < |Page(NewestFirst(rows), page)| ==>
              Offset(page) + i < |rows| && Page(NewestFirst(rows), page)[i] == rows[|rows| - 1 - (Offset(page) + i)]
    ensures Offset(page) + PerPage <= |rows| ==> |Page(NewestFirst(rows), page)| == PerPage
  {
  }

  /** The first `k` pages, one after the other. */
  function FirstPages<T>(rows: seq<T>, k: nat): seq<T> {
    if k == 0 then [] else FirstPages(rows, k - 1) + Page(rows, k)
  }

  /** The first `k` pages are exactly the first `50 k` rows. */
  lemma {:induction false} FirstPagesPrefix<T>(rows: seq<T>, k: nat)
    ensures FirstPages(rows, k) == rows[..Min(k * PerPage, |rows|)]
  {
    if k > 0 {
      FirstPagesPrefix(rows, k - 1);
      var lo := Min((k - 1) * PerPage, |rows|);
      var hi := Min(k * PerPage, |rows|);
      assert rows[..lo] + rows[lo..hi] == rows[..hi];
    }
  }

  /** Paging through all `TotalPages` pages shows every selected row once, in order. */
  lemma PagesShowEveryRow<T>(rows: seq<T>)
    ensures FirstPages(rows, TotalPages(|rows|)) == rows
  {
    FirstPagesPrefix(rows, TotalPages(|rows|));
  }

  /** Row `i` of the selection is row `i % 50` of page `i / 50 + 1`, and that page exists. */
  lemma PageOfRow<T>(rows: seq<T>, i: nat)
    requires i < |rows|
    ensures 1 <= i / PerPage + 1 <= TotalPages(|rows|)
    ensures var p := Page(rows, i / PerPage + 1);
            i % PerPage < |p| && p[i % PerPage] == rows[i]
  {
  }

  /** A page past the last one is empty. */
  lemma PastLastPage<T>(rows: seq<T>, page: int)
    requires page > TotalPages(|rows|)
    ensures Page(rows, page) == []
  {
  }
}
