/**
 * Pagination of the visible rows: how many pages there are, which rows a
 * page shows, and which controls the pagination bar offers.
 */
module Paging {

  function Min(a: int, b: int): int {
    if a <= b then a else b
  }

  /** `Math.ceil(count / limit)`: the least number of pages of `limit` rows
      that hold `count` rows. */
  function TotalPages(count: nat, limit: nat): (t: nat)
    requires limit > 0
    ensures count <= t * limit
    ensures t > 0 ==> (t - 1) * limit < count
  {
    var t := (count + limit - 1) / limit;
    assert t * limit <= count + limit - 1 < (t + 1) * limit;
    t
  }

  /** The index of the first row of `page`. */
  function PageStart(page: int, limit: nat): nat
    requires page >= 1
  {
    (page - 1) * limit
  }

  /** `rows.slice((page - 1) * limit, (page - 1) * limit + limit)`: the rows
      of one page, at most `limit` of them, taken in order from position
      `(page - 1) * limit` on. */
  function PageSlice<T>(rows: seq<T>, page: int, limit: nat): (r: seq<T>)
    requires page >= 1 && limit > 0
    ensures |r| <= limit
    ensures |r| == if PageStart(page, limit) >= |rows| then 0 else Min(limit, |rows| - PageStart(page, limit))
    ensures forall k | 0 <= k < |r| :: r[k] == rows[PageStart(page, limit) + k]
  {
    var start := PageStart(page, limit);
    if start >= |rows| then [] else rows[start..Min(start + limit, |rows|)]
  }

  lemma MulMonotone(a: int, b: int, limit: nat)
    requires a <= b
    ensures a * limit <= b * limit
  {
  }

  /** A page has rows exactly when it is one of pages 1..TotalPages: the
      range that a page change accepts. */
  lemma PageSliceNonEmpty<T>(rows: seq<T>, page: int, limit: nat)
    requires page >= 1 && limit > 0
    ensures PageSlice(rows, page, limit) != [] <==> page <= TotalPages(|rows|, limit)
  {
    var t := TotalPages(|rows|, limit);
    if page <= t {
      MulMonotone(page - 1, t - 1, limit);
    } else {
      MulMonotone(t, page - 1, limit);
    }
  }

  lemma MulStep(n: int, limit: nat)
    ensures n * limit == (n - 1) * limit + limit
  {
  }

  /** Pages 1..n laid end to end. */
  function Pages<T>(rows: seq<T>, limit: nat, n: nat): seq<T>
    requires limit > 0
  {
    if n == 0 then [] else Pages(rows, limit, n - 1) + PageSlice(rows, n, limit)
  }

  /** The first n pages together are the first n * limit rows. */
  lemma PagesArePrefix<T>(rows: seq<T>, limit: nat, n: nat)
    requires limit > 0
    ensures Pages(rows, limit, n) == rows[..Min(n * limit, |rows|)]
  {
    PagesUpTo(rows, limit, n, n * limit);
  }

  /** `PagesArePrefix` with the product `n * limit` named `b`. */
  lemma {:induction false} PagesUpTo<T>(rows: seq<T>, limit: nat, n: nat, b: nat)
    requires limit > 0 && b == n * limit
    ensures Pages(rows, limit, n) == rows[..Min(b, |rows|)]
  {
    if n > 0 {
      MulStep(n, limit);
      var a: nat := b - limit;
      PagesUpTo(rows, limit, n - 1, a);
      assert PageStart(n, limit) == a;
      assert PageSlice(rows, n, limit) == if a >= |rows| then [] else rows[a..Min(a + limit, |rows|)];
      PrefixThenPage(rows, a, limit);
    }
  }

  /** The rows before `a`, followed by the page that starts at `a`, are the
      rows before `a + limit`. */
  lemma PrefixThenPage<T>(rows: seq<T>, a: nat, limit: nat)
    ensures rows[..Min(a, |rows|)] + (if a >= |rows| then [] else rows[a..Min(a + limit, |rows|)])
         == rows[..Min(a + limit, |rows|)]
  {
    if a < |rows| {
      assert rows[..a] + rows[a..Min(a + limit, |rows|)] == rows[..Min(a + limit, |rows|)];
    }
  }

  /** Paging loses and repeats nothing: all pages together are the rows. */
  lemma PagesCoverRows<T>(rows: seq<T>, limit: nat)
    requires limit > 0
    ensures Pages(rows, limit, TotalPages(|rows|, limit)) == rows
  {
    PagesArePrefix(rows, limit, TotalPages(|rows|, limit));
  }

  /** With 23 rows and 10 per page there are three pages; the third holds
      three rows and a fourth would hold none. */
  lemma TwentyThreeRows<T>(rows: seq<T>)
    requires |rows| == 23
    ensures TotalPages(|rows|, 10) == 3
    ensures |PageSlice(rows, 1, 10)| == 10 && |PageSlice(rows, 3, 10)| == 3
    ensures PageSlice(rows, 4, 10) == []
  {
  }

  // The pagination bar.

  datatype Label = Previous | Next | Number(n: int)

  /** A page link (`createBtn(page, text, active, disabled)`) or an ellipsis. */
  datatype Control = Link(target: int, text: Label, active: bool, disabled: bool) | Ellipsis

  /** Page `i` gets a numbered button: the first, the last, and the pages next
      to the current one. */
  predicate Shown(i: int, page: int, total: int)
    ensures (i == 1 || i == total || i == page) ==> Shown(i, page, total)
  {
    i == 1 || i == total || (page - 1 <= i <= page + 1)
  }

  /** Page `j` is in 1..n but has no button. */
  predicate Hidden(j: int, n: int, page: int, total: int) {
    1 <= j <= n && !Shown(j, page, total)
  }

  /** What one turn of the loop over the pages adds for page `i`. */
  function Slot(i: int, page: int, total: int): (s: seq<Control>)
    ensures |s| <= 1
    ensures forall c | c in s && c.Link? :: c.target == i && c.text == Number(i) && !c.disabled
  {
    if Shown(i, page, total) then [Link(i, Number(i), i == page, false)]
    else if i == page - 2 || i == page + 2 then [Ellipsis]
    else []
  }

  /** The entries for pages 1..n. */
  function Window(n: int, page: int, total: int): (w: seq<Control>)
    ensures |w| <= if n < 1 then 0 else n
    decreases n
  {
    if n < 1 then [] else Window(n - 1, page, total) + Slot(n, page, total)
  }

  /** The whole pagination bar for `total` pages with `page` current. */
  function Controls(total: int, page: int): (cs: seq<Control>)
    ensures cs == [] <==> total <= 1
    ensures total > 1 ==> 2 <= |cs| <= total + 2
    ensures total > 1 ==> cs[0] == Link(page - 1, Previous, false, page == 1)
    ensures total > 1 ==> cs[|cs| - 1] == Link(page + 1, Next, false, page == total)
  {
    if total <= 1 then []
    else [Link(page - 1, Previous, false, page == 1)] + Window(total, page, total)
         + [Link(page + 1, Next, false, page == total)]
  }

  /** `UI.renderPagination`: the loop over pages 1..totalPages with its
      accumulator. */
  method PaginationControls(count: nat, limit: nat, page: int) returns (controls: seq<Control>)
    requires limit > 0
    ensures controls == Controls(TotalPages(count, limit), page)
  {
    var total := TotalPages(count, limit);
    if total <= 1 {
      return [];
    }
    controls := [Link(page - 1, Previous, false, page == 1)];
    for i := 1 to total + 1
      invariant controls == [Link(page - 1, Previous, false, page == 1)] + Window(i - 1, page, total)
    {
      assert Window(i, page, total) == Window(i - 1, page, total) + Slot(i, page, total);
      if i == 1 || i == total || (i >= page - 1 && i <= page + 1) {
        controls := controls + [Link(i, Number(i), i == page, false)];
      } else if i == page - 2 || i == page + 2 {
        controls := controls + [Ellipsis];
      }
    }
    controls := controls + [Link(page + 1, Next, false, page == total)];
  }

  /** The numbered buttons among pages 1..n are exactly the shown pages, each
      labelled with its number, marked active when it is the current page,
      and never disabled. */
  lemma {:induction false} WindowLinks(n: int, page: int, total: int)
    ensures forall c | c in Window(n, page, total) && c.Link? ::
      c.text == Number(c.target) && 1 <= c.target <= n && Shown(c.target, page, total)
      && c.active == (c.target == page) && !c.disabled
    ensures forall i | 1 <= i <= n && Shown(i, page, total) ::
      Link(i, Number(i), i == page, false) in Window(n, page, total)
    decreases n
  {
    if n >= 1 {
      WindowLinks(n - 1, page, total);
    }
  }

  /** The page links of `w` have strictly ascending targets. */
  predicate LinksAscending(w: seq<Control>) {
    forall a, b | 0 <= a < b < |w| && w[a].Link? && w[b].Link? :: w[a].target < w[b].target
  }

  /** The numbered buttons come in strictly ascending page order. */
  lemma {:induction false} WindowAscending(n: int, page: int, total: int)
    ensures LinksAscending(Window(n, page, total))
    decreases n
  {
    if n >= 1 {
      WindowAscending(n - 1, page, total);
      WindowLinks(n - 1, page, total);
      var prev := Window(n - 1, page, total);
      var slot := Slot(n, page, total);
      var w := prev + slot;
      assert w == Window(n, page, total);
      forall a, b | 0 <= a < b < |w| && w[a].Link? && w[b].Link? ensures w[a].target < w[b].target {
        if b >= |prev| {
          assert w[b] == slot[0] && w[b].target == n;
          assert w[a] == prev[a] && prev[a] in prev;
        } else {
          assert w[a] == prev[a] && w[b] == prev[b];
        }
      }
    }
  }

  /** Among pages 1..n there is one ellipsis for page - 2 and one for
      page + 2 when that page has no button, and no other. */
  lemma {:induction false} WindowEllipses(n: int, page: int, total: int)
    ensures multiset(Window(n, page, total))[Ellipsis]
         == (if Hidden(page - 2, n, page, total) then 1 else 0)
          + (if Hidden(page + 2, n, page, total) then 1 else 0)
    decreases n
  {
    if n >= 1 {
      WindowEllipses(n - 1, page, total);
      var prev, slot := Window(n - 1, page, total), Slot(n, page, total);
      assert Window(n, page, total) == prev + slot;
      assert multiset(prev + slot) == multiset(prev) + multiset(slot);
    }
  }

  /** The entry at `e` of `w` stands in the place of page `j`: every page
      link before it targets a page below `j` and every one after it a page
      above `j`. */
  predicate StandsFor(w: seq<Control>, e: int, j: int) {
    && (forall a | 0 <= a < e && a < |w| && w[a].Link? :: w[a].target < j)
    && (forall b | 0 <= b < |w| && e < b && w[b].Link? :: w[b].target > j)
  }

  /** Each ellipsis among pages 1..n stands in the place of page - 2 or
      page + 2, a page that exists and has no button. */
  lemma {:induction false} WindowEllipsisPlaces(n: int, page: int, total: int)
    ensures forall e | 0 <= e < |Window(n, page, total)| && Window(n, page, total)[e] == Ellipsis ::
      || (Hidden(page - 2, n, page, total) && StandsFor(Window(n, page, total), e, page - 2))
      || (Hidden(page + 2, n, page, total) && StandsFor(Window(n, page, total), e, page + 2))
    decreases n
  {
    if n >= 1 {
      WindowEllipsisPlaces(n - 1, page, total);
      WindowLinks(n - 1, page, total);
      var prev := Window(n - 1, page, total);
      var slot := Slot(n, page, total);
      var w := prev + slot;
      assert w == Window(n, page, total);
      forall e | 0 <= e < |w| && w[e] == Ellipsis
        ensures || (Hidden(page - 2, n, page, total) && StandsFor(w, e, page - 2))
                || (Hidden(page + 2, n, page, total) && StandsFor(w, e, page + 2))
      {
        if e < |prev| {
          assert prev[e] == Ellipsis;
          var j := if Hidden(page - 2, n - 1, page, total) && StandsFor(prev, e, page - 2) then page - 2 else page + 2;
          assert Hidden(j, n - 1, page, total) && StandsFor(prev, e, j);
          forall a | 0 <= a < e && w[a].Link? ensures w[a].target < j {
            assert w[a] == prev[a];
          }
          forall b | 0 <= b < |w| && e < b && w[b].Link? ensures w[b].target > j {
            if b >= |prev| {
              assert w[b] == slot[0] && w[b].target == n;
            } else {
              assert w[b] == prev[b];
            }
          }
          assert StandsFor(w, e, j);
        } else {
          assert slot == [Ellipsis];
          forall a | 0 <= a < e && w[a].Link? ensures w[a].target < n {
            assert w[a] == prev[a] && prev[a] in prev;
          }
          assert StandsFor(w, e, n);
        }
      }
    }
  }

  /** A page `page - 2` or `page + 2` that exists among pages 1..n and has no
      button gets an ellipsis of its own, standing in its place. */
  lemma {:induction false} HiddenPageHasEllipsis(n: int, page: int, total: int, j: int)
    requires j == page - 2 || j == page + 2
    requires Hidden(j, n, page, total)
    ensures exists e ::
      && 0 <= e < |Window(n, page, total)|
      && Window(n, page, total)[e] == Ellipsis
      && StandsFor(Window(n, page, total), e, j)
    decreases n
  {
    WindowLinks(n - 1, page, total);
    var prev := Window(n - 1, page, total);
    var slot := Slot(n, page, total);
    var w := prev + slot;
    assert w == Window(n, page, total);
    if j == n {
      assert slot == [Ellipsis];
      var e := |prev|;
      forall a | 0 <= a < e && w[a].Link? ensures w[a].target < j {
        assert w[a] == prev[a] && prev[a] in prev;
      }
      assert w[e] == Ellipsis && StandsFor(w, e, j);
    } else {
      HiddenPageHasEllipsis(n - 1, page, total, j);
      var e :| 0 <= e < |prev| && prev[e] == Ellipsis && StandsFor(prev, e, j);
      forall a | 0 <= a < e && w[a].Link? ensures w[a].target < j {
        assert w[a] == prev[a];
      }
      forall b | 0 <= b < |w| && e < b && w[b].Link? ensures w[b].target > j {
        if b >= |prev| {
          assert w[b] == slot[0] && w[b].target == n;
        } else {
          assert w[b] == prev[b];
        }
      }
      assert w[e] == Ellipsis && StandsFor(w, e, j);
    }
  }

  /** For a current page in range, a control is disabled exactly when its
      target is a page that a page change would refuse. */
  lemma ControlsDisabledIffRefused(total: int, page: int)
    requires 1 <= page <= total
    ensures forall c | c in Controls(total, page) && c.Link? ::
      c.disabled <==> !(1 <= c.target <= total)
  {
    WindowLinks(total, page, total);
  }
}
