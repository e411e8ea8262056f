/** The invoice table: sort state, the comparator, the stable sort of a copy of the rows,
    pages of fifteen rows and the previous/next page buttons. */
module DataTable {
  import opened Types
  import opened JsText
  import opened StableSort

  const ItemsPerPage: int := 15

  /** The six columns whose headers can be clicked to sort. */
  datatype SortKey = FechaRegistro | RazonSocial | Empresa | Concepto | SubtotalConIva | Estado

  datatype SortDirection = Ascending | Descending

  datatype SortConfig = SortConfig(key: SortKey, direction: SortDirection)

  /** The value of one column of a row: dates and amounts compare as numbers,
      text columns and the status (by its string value) as strings. */
  datatype KeyValue = Num(n: int) | Text(t: string)

  function Min(a: int, b: int): int { if a <= b then a else b }

  function Max(a: int, b: int): int { if a >= b then a else b }

  /** `row[key]` for the sortable columns. */
  function KeyOf(key: SortKey, f: Factura): (r: KeyValue)
    ensures r.Num? <==> key == FechaRegistro || key == SubtotalConIva
    ensures key == Estado ==> r == Text(Value(f.estado))
  {
    match key
    case FechaRegistro => Num(f.fechaRegistro)
    case RazonSocial => Text(f.razonSocial)
    case Empresa => Text(f.empresa)
    case Concepto => Text(f.concepto)
    case SubtotalConIva => Num(f.subtotalConIva)
    case Estado => Text(Value(f.estado))
  }

  /** JavaScript's `<` between two values of one column. */
  predicate KeyLess(u: KeyValue, v: KeyValue)
    ensures KeyLess(u, v) ==> u != v && u.Num? == v.Num?
  {
    match (u, v)
    case (Num(m), Num(n)) => m < n
    case (Text(s), Text(t)) => StrLess(s, t)
    case _ => false
  }

  lemma KeyLessAsymmetric(u: KeyValue, v: KeyValue)
    requires KeyLess(u, v)
    ensures !KeyLess(v, u)
  {
    if u.Text? && v.Text? {
      StrLessAsymmetric(u.t, v.t);
    }
  }

  lemma KeyLessTransitive(u: KeyValue, v: KeyValue, w: KeyValue)
    requires KeyLess(u, v) && KeyLess(v, w)
    ensures KeyLess(u, w)
  {
    if u.Text? {
      StrLessTransitive(u.t, v.t, w.t);
    }
  }

  /** Two values of the same column are equal or one is below the other. */
  lemma KeyLessTotal(key: SortKey, a: Factura, b: Factura)
    ensures KeyOf(key, a) == KeyOf(key, b) || KeyLess(KeyOf(key, a), KeyOf(key, b))
      || KeyLess(KeyOf(key, b), KeyOf(key, a))
  {
    var u, v := KeyOf(key, a), KeyOf(key, b);
    if u.Text? && v.Text? {
      StrLessTotal(u.t, v.t);
    }
  }

  /** The comparator handed to `sort`: negative when `a` goes first, positive when `b`
      goes first, zero when the two rows have the same value in the sort column. */
  function Compare(cfg: SortConfig, a: Factura, b: Factura): (r: int)
    ensures r == 0 <==> KeyOf(cfg.key, a) == KeyOf(cfg.key, b)
    ensures cfg.direction == Ascending ==> (r < 0 <==> KeyLess(KeyOf(cfg.key, a), KeyOf(cfg.key, b)))
    ensures cfg.direction == Descending ==> (r < 0 <==> KeyLess(KeyOf(cfg.key, b), KeyOf(cfg.key, a)))
  {
    var ka, kb := KeyOf(cfg.key, a), KeyOf(cfg.key, b);
    KeyLessTotal(cfg.key, a, b);
    if KeyLess(ka, kb) then
      KeyLessAsymmetric(ka, kb);
      if cfg.direction == Ascending then -1 else 1
    else if KeyLess(kb, ka) then
      if cfg.direction == Ascending then 1 else -1
    else
      0
  }

  function RowComparator(cfg: SortConfig): (Factura, Factura) -> int
  {
    (a, b) => Compare(cfg, a, b)
  }

  /** The comparator of every sort configuration meets what a stable sort expects. */
  lemma RowComparatorIsComparator(cfg: SortConfig)
    ensures IsComparator(RowComparator(cfg))
  {
    var cmp := RowComparator(cfg);
    forall a, b
      ensures cmp(a, b) < 0 <==> cmp(b, a) > 0
    {
      var ka, kb := KeyOf(cfg.key, a), KeyOf(cfg.key, b);
      KeyLessTotal(cfg.key, a, b);
      if KeyLess(ka, kb) {
        KeyLessAsymmetric(ka, kb);
      }
      if KeyLess(kb, ka) {
        KeyLessAsymmetric(kb, ka);
      }
    }
    forall a, b, c | cmp(a, b) <= 0 && cmp(b, c) <= 0
      ensures cmp(a, c) <= 0
    {
      var ka, kb, kc := KeyOf(cfg.key, a), KeyOf(cfg.key, b), KeyOf(cfg.key, c);
      KeyLessTotal(cfg.key, a, b);
      KeyLessTotal(cfg.key, b, c);
      KeyLessTotal(cfg.key, a, c);
      if cfg.direction == Ascending {
        if KeyLess(ka, kb) && KeyLess(kb, kc) {
          KeyLessTransitive(ka, kb, kc);
        }
        if KeyLess(kc, ka) {
          KeyLessAsymmetric(kc, ka);
        }
      } else {
        if KeyLess(kc, kb) && KeyLess(kb, ka) {
          KeyLessTransitive(kc, kb, ka);
        }
        if KeyLess(ka, kc) {
          KeyLessAsymmetric(ka, kc);
        }
      }
    }
  }

  /** `sortedData`: the rows sorted by the configured column and direction. */
  function SortRows(data: seq<Factura>, cfg: SortConfig): (r: seq<Factura>)
    ensures |r| == |data|
    ensures multiset(r) == multiset(data)
  {
    InsertionSortPermutes(RowComparator(cfg), data);
    InsertionSort(RowComparator(cfg), data)
  }

  /** The sorted rows are a permutation of the input, in order of the sort column
      (non-decreasing when ascending, non-increasing when descending), and rows with the
      same value in that column keep their input order. */
  lemma SortRowsCorrect(data: seq<Factura>, cfg: SortConfig)
    ensures multiset(SortRows(data, cfg)) == multiset(data)
    ensures cfg.direction == Ascending ==>
      forall i, j :: 0 <= i < j < |SortRows(data, cfg)| ==>
        !KeyLess(KeyOf(cfg.key, SortRows(data, cfg)[j]), KeyOf(cfg.key, SortRows(data, cfg)[i]))
    ensures cfg.direction == Descending ==>
      forall i, j :: 0 <= i < j < |SortRows(data, cfg)| ==>
        !KeyLess(KeyOf(cfg.key, SortRows(data, cfg)[i]), KeyOf(cfg.key, SortRows(data, cfg)[j]))
    ensures Stable(RowComparator(cfg), data, SortRows(data, cfg))
  {
    var cmp := RowComparator(cfg);
    RowComparatorIsComparator(cfg);
    InsertionSortPermutes(cmp, data);
    InsertionSortSorted(cmp, data);
    InsertionSortStable(cmp, data);
    var r := SortRows(data, cfg);
    forall i, j | 0 <= i < j < |r|
      ensures cfg.direction == Ascending ==> !KeyLess(KeyOf(cfg.key, r[j]), KeyOf(cfg.key, r[i]))
      ensures cfg.direction == Descending ==> !KeyLess(KeyOf(cfg.key, r[i]), KeyOf(cfg.key, r[j]))
    {
      assert cmp(r[i], r[j]) <= 0;
      if KeyLess(KeyOf(cfg.key, r[j]), KeyOf(cfg.key, r[i])) {
        KeyLessAsymmetric(KeyOf(cfg.key, r[j]), KeyOf(cfg.key, r[i]));
      }
    }
  }

  /** Two rows with the same date: descending order keeps them as ascending order does,
      so the descending table is not the ascending table reversed. */
  lemma DescendingIsNotReversedAscending(a: Factura, b: Factura)
    requires a != b && a.fechaRegistro == b.fechaRegistro
    ensures SortRows([a, b], SortConfig(FechaRegistro, Ascending)) == [a, b]
    ensures SortRows([a, b], SortConfig(FechaRegistro, Descending)) == [a, b]
  {
    forall cfg: SortConfig | cfg.key == FechaRegistro
      ensures SortRows([a, b], cfg) == [a, b]
    {
      var cmp := RowComparator(cfg);
      assert [a, b][..1] == [a] && [a][..0] == [];
      assert InsertionSort(cmp, [a]) == [a];
      assert cmp(a, b) == 0;
      assert Insert(cmp, b, [a]) == [a, b];
    }
  }

  /** Sorting by status compares the status strings, which puts them in alphabetical
      order: ANULADO, COBRADO, IMPAGO, PENDIENTE. */
  function AlphabeticalRank(e: EstadoFactura): (r: int)
  {
    match e
    case ANULADO => 0
    case COBRADO => 1
    case IMPAGO => 2
    case PENDIENTE => 3
  }

  lemma StatusSortsAlphabetically(a: Factura, b: Factura)
    ensures KeyLess(KeyOf(Estado, a), KeyOf(Estado, b)) <==> AlphabeticalRank(a.estado) < AlphabeticalRank(b.estado)
  {
    var s, t := Value(a.estado), Value(b.estado);
    if a.estado == b.estado {
      StrLessIrreflexive(s);
    } else {
      assert s[0] != t[0];
    }
  }

  /** `totalPages = Math.ceil(n / 15)`; zero when there are no rows. */
  function TotalPages(n: int): (r: int)
    requires n >= 0
    ensures r >= 0
    ensures (r - 1) * ItemsPerPage < n <= r * ItemsPerPage
    ensures r == 0 <==> n == 0
  {
    (n + ItemsPerPage - 1) / ItemsPerPage
  }

  /** How `Array.prototype.slice` resolves a relative index against a length:
      negative indices count from the end, and the result is clamped to `[0, len]`. */
  function SliceIndex(rel: int, len: int): (r: int)
    requires len >= 0
    ensures 0 <= r <= len
  {
    if rel < 0 then Max(len + rel, 0) else Min(rel, len)
  }

  /** `Array.prototype.slice(start, end)`. */
  function JsSlice<T>(s: seq<T>, start: int, end: int): (r: seq<T>)
    ensures |r| <= |s|
    ensures 0 <= start <= end ==> r == s[Min(start, |s|)..Min(end, |s|)]
    ensures start < 0 && end == 0 ==> r == []
  {
    var from, to := SliceIndex(start, |s|), SliceIndex(end, |s|);
    if from < to then s[from..to] else []
  }

  /** `currentTableData`: page `page` of the sorted rows. From page 1 on it is the
      contiguous slice `[(page-1)*15, page*15)` clipped to the rows; page 0 is always
      empty, because the slice then runs from -15 to 0. */
  function Page<T>(rows: seq<T>, page: int): (r: seq<T>)
    ensures |r| <= ItemsPerPage
    ensures page >= 1 ==>
      r == rows[Min((page - 1) * ItemsPerPage, |rows|)..Min(page * ItemsPerPage, |rows|)]
    ensures page == 0 ==> r == []
  {
    var first := (page - 1) * ItemsPerPage;
    JsSlice(rows, first, first + ItemsPerPage)
  }

  /** Every page but the last is full, the last holds the remainder, and pages past
      the last are empty. */
  lemma PageLength<T>(rows: seq<T>, page: int)
    requires page >= 1
    ensures page < TotalPages(|rows|) ==> |Page(rows, page)| == ItemsPerPage
    ensures page == TotalPages(|rows|) ==>
      |Page(rows, page)| == |rows| - (page - 1) * ItemsPerPage > 0
    ensures page > TotalPages(|rows|) ==> Page(rows, page) == []
  {
  }

  /** A page only holds rows of the table. */
  lemma PageWithinRows<T>(rows: seq<T>, page: int)
    requires page >= 0
    ensures forall x :: x in Page(rows, page) ==> x in rows
  {
    if page >= 1 {
      var r := Page(rows, page);
      var lo := Min((page - 1) * ItemsPerPage, |rows|);
      forall x | x in r
        ensures x in rows
      {
        var k :| 0 <= k < |r| && r[k] == x;
        assert rows[lo + k] == x;
      }
    }
  }

  /** Pages `page`, `page + 1`, ..., up to the last page, one after another. */
  function PagesFrom<T>(rows: seq<T>, page: int): seq<T>
    requires page >= 1
    decreases TotalPages(|rows|) + 1 - page
  {
    if page > TotalPages(|rows|) then [] else Page(rows, page) + PagesFrom(rows, page + 1)
  }

  lemma {:induction false} PagesFromSuffix<T>(rows: seq<T>, page: int)
    requires 1 <= page <= TotalPages(|rows|) + 1
    ensures PagesFrom(rows, page) == rows[Min((page - 1) * ItemsPerPage, |rows|)..]
    decreases TotalPages(|rows|) + 1 - page
  {
    if page <= TotalPages(|rows|) {
      PagesFromSuffix(rows, page + 1);
      var a, b := (page - 1) * ItemsPerPage, Min(page * ItemsPerPage, |rows|);
      assert rows[a..b] + rows[b..] == rows[a..];
    }
  }

  /** Concatenating pages 1 to `totalPages` gives back the sorted rows, each exactly once. */
  lemma AllPagesReproduceRows<T>(rows: seq<T>)
    ensures PagesFrom(rows, 1) == rows
  {
    PagesFromSuffix(rows, 1);
  }

  /** "Mostrando a a b": the one-based positions of the first and last row of the page. */
  function ShownRange<T>(rows: seq<T>, page: int): (r: (int, int))
    ensures page >= 1 ==> 1 <= r.0 && r.1 <= |rows|
    ensures page >= 1 && r.0 <= r.1 ==> Page(rows, page) == rows[r.0 - 1..r.1]
    ensures page >= 1 ==> |Page(rows, page)| == Max(0, r.1 - r.0 + 1)
  {
    ((page - 1) * ItemsPerPage + 1, Min(page * ItemsPerPage, |rows|))
  }

  /** The "previous" button: `Math.max(1, p - 1)`. */
  function PreviousPage(page: int): (r: int)
    ensures r >= 1
    ensures page > 1 ==> r == page - 1
    ensures page <= 1 ==> r == 1
  {
    Max(1, page - 1)
  }

  /** The "next" button: `Math.min(totalPages, p + 1)`. It never passes the last page,
      and from beyond it (after the rows shrank) it jumps back to the last page. */
  function NextPage(page: int, totalPages: int): (r: int)
    ensures r <= totalPages
    ensures page < totalPages ==> r == page + 1
    ensures page >= totalPages ==> r == totalPages
  {
    Min(totalPages, page + 1)
  }

  /** `requestSort(key)`: the column becomes `key`; the direction becomes descending
      exactly when `key` was already sorted ascending, and ascending otherwise. */
  function RequestedSort(cfg: SortConfig, key: SortKey): (r: SortConfig)
    ensures r.key == key
    ensures r.direction == Descending <==> cfg.key == key && cfg.direction == Ascending
  {
    var direction := if cfg.key == key && cfg.direction == Ascending then Descending else Ascending;
    SortConfig(key, direction)
  }

  /** Clicking the same header again alternates the direction: from ascending, two
      clicks come back to ascending, and after the first click the cycle has length two. */
  lemma RequestSortAlternates(cfg: SortConfig, key: SortKey)
    ensures RequestedSort(RequestedSort(SortConfig(key, Ascending), key), key) == SortConfig(key, Ascending)
    ensures RequestedSort(RequestedSort(RequestedSort(cfg, key), key), key) == RequestedSort(cfg, key)
    ensures cfg.key != key ==> RequestedSort(cfg, key) == SortConfig(key, Ascending)
  {
  }

  /** The state the table component keeps between renders. */
  class DataTableState {
    var currentPage: int
    var sortConfig: SortConfig

    /** Pages are numbered from 1. */
    ghost predicate Valid()
      reads this
    {
      currentPage >= 1
    }

    /** Page 1, sorted by date, newest first. */
    constructor ()
      ensures Valid()
      ensures currentPage == 1 && sortConfig == SortConfig(FechaRegistro, Descending)
    {
      currentPage := 1;
      sortConfig := SortConfig(FechaRegistro, Descending);
    }

    /** A click on a column header: new sort configuration, back to page 1. */
    method RequestSort(key: SortKey)
      requires Valid()
      modifies this
      ensures Valid()
      ensures sortConfig == RequestedSort(old(sortConfig), key)
      ensures currentPage == 1
    {
      sortConfig := RequestedSort(sortConfig, key);
      currentPage := 1;
    }

    /** The "previous" button, which is disabled on page 1. */
    method Previous()
      requires Valid()
      modifies this`currentPage
      ensures Valid()
      ensures currentPage == PreviousPage(old(currentPage))
    {
      if currentPage != 1 {
        currentPage := PreviousPage(currentPage);
      }
    }

    /** The "next" button for the rows `data`, which is disabled on the last page.
        It moves with `NextPageClamped`, so an empty table cannot send it to page 0. */
    method Next(data: seq<Factura>)
      requires Valid()
      modifies this`currentPage
      ensures Valid()
      ensures old(currentPage) == TotalPages(|data|) ==> currentPage == old(currentPage)
      ensures old(currentPage) != TotalPages(|data|) ==>
        currentPage == NextPageClamped(old(currentPage), TotalPages(|data|))
    {
      var totalPages := TotalPages(|data|);
      if currentPage != totalPages {
        currentPage := NextPageClamped(currentPage, totalPages);
      }
    }

    /** `sortedData`: sorts a fresh copy of the rows in place; `data` itself is a value
        and is left as it was. */
    method SortedData(data: seq<Factura>) returns (rows: seq<Factura>)
      ensures rows == SortRows(data, sortConfig)
      ensures multiset(rows) == multiset(data)
    {
      var copy := new Factura[|data|](i requires 0 <= i < |data| => data[i]);
      assert copy[..] == data;
      SortInPlace(copy, RowComparator(sortConfig));
      rows := copy[..];
      SortRowsCorrect(data, sortConfig);
    }

    /** `currentTableData`: the rows of the current page of the sorted data. */
    method CurrentTableData(data: seq<Factura>) returns (rows: seq<Factura>)
      ensures rows == Page(SortRows(data, sortConfig), currentPage)
      ensures |rows| <= ItemsPerPage
    {
      var sorted := SortedData(data);
      var first := (currentPage - 1) * ItemsPerPage;
      rows := JsSlice(sorted, first, first + ItemsPerPage);
    }
  }

  /** As written, "next" on an empty table is enabled (page 1 differs from zero pages)
      and moves to page 0; page 0 is empty whatever the rows, so once rows come back the
      table stays blank until a page button or a column header is clicked. */
  lemma NextOnEmptyTableHidesLaterRows(rows: seq<Factura>)
    requires |rows| > 0
    ensures 1 != TotalPages(0) && NextPage(1, TotalPages(0)) == 0
    ensures Page(SortRows(rows, SortConfig(FechaRegistro, Descending)), NextPage(1, TotalPages(0))) == []
    ensures TotalPages(|rows|) >= 1
  {
  }

  /** "next" clamped to page 1 at least, as the page counter evidently intends. */
  function NextPageClamped(page: int, totalPages: int): (r: int)
    ensures r >= 1
    ensures 1 <= page < totalPages ==> r == page + 1
    ensures 1 <= totalPages <= page ==> r == totalPages
  {
    Max(1, Min(totalPages, page + 1))
  }

  /** With the clamp, pressing "next" from any page of a non-empty table, including a
      page beyond the last one left behind when the rows shrank, lands on a page that
      shows at least one row. */
  lemma ClampedNextShowsRows<T>(rows: seq<T>, page: int)
    requires |rows| > 0 && page >= 1
    ensures 1 <= |Page(rows, NextPageClamped(page, TotalPages(|rows|)))| <= ItemsPerPage
  {
    PageLength(rows, NextPageClamped(page, TotalPages(|rows|)));
  }

  /** The corrected button on the case of the finding: "next" on an empty table stays on
      page 1, so rows that come back later are shown at once. */
  lemma ClampedNextRecoversFromEmpty(later: seq<Factura>)
    requires |later| > 0
    ensures NextPageClamped(1, TotalPages(0)) == 1
    ensures 1 <= |Page(later, NextPageClamped(1, TotalPages(0)))|
  {
    PageLength(later, 1);
  }
}
