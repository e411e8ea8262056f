/** The dashboard's derivations over the loaded invoices: the table filters (free-text
    search, company, status), the list of companies offered by the company filter, the
    statuses offered by the status filter and the "Pendiente de Cobro" figure. */
module Dashboard {
  import opened Types
  import opened JsText
  import opened StableSort
  import DataTable

  /** The value a filter holds when it lets everything through. */
  const All: string := "all"

  /** The three table filters the dashboard holds. */
  datatype Filters = Filters(searchTerm: string, filterEmpresa: string, filterEstado: string)

  /** The filters as the dashboard first shows them. */
  const InitialFilters: Filters := Filters("", All, All)

  /** The search box: an empty term matches everything; otherwise the lower-cased term
      must occur in the lower-cased client name, company, concept or invoice number. */
  predicate MatchesSearch(f: Factura, term: string)
    ensures term == "" ==> MatchesSearch(f, term)
    ensures MatchesSearch(f, term) ==>
      term == "" || |term| <= |f.razonSocial| || |term| <= |f.empresa| || |term| <= |f.concepto| || |term| <= |f.facturaN|
  {
    var t := Lower(term);
    term == ""
    || Includes(Lower(f.razonSocial), t)
    || Includes(Lower(f.empresa), t)
    || Includes(Lower(f.concepto), t)
    || Includes(Lower(f.facturaN), t)
  }

  /** The company filter: "all", or exactly (case-sensitively) the record's company. */
  function MatchesEmpresa(f: Factura, filterEmpresa: string): (r: bool)
    ensures filterEmpresa == All ==> r
    ensures filterEmpresa != All ==> (r <==> filterEmpresa == f.empresa)
  {
    filterEmpresa == All || f.empresa == filterEmpresa
  }

  /** The status filter: "all", or the string value of the record's status. */
  predicate MatchesEstado(f: Factura, filterEstado: string)
    ensures filterEstado != All ==> (MatchesEstado(f, filterEstado) <==> FromValue(filterEstado) == Some(f.estado))
  {
    ValueRoundTrip(f.estado);
    filterEstado == All || Value(f.estado) == filterEstado
  }

  /** All three filters at once: the initial filters let every record through, and a
      selector that is not on "all" pins the record's company or status. */
  function Matches(f: Factura, q: Filters): (r: bool)
    ensures q == InitialFilters ==> r
    ensures r && q.filterEmpresa != All ==> f.empresa == q.filterEmpresa
    ensures r && q.filterEstado != All ==> FromValue(q.filterEstado) == Some(f.estado)
  {
    MatchesSearch(f, q.searchTerm) && MatchesEmpresa(f, q.filterEmpresa) && MatchesEstado(f, q.filterEstado)
  }

  /** Setting any one filter back to its initial value never loses a record. */
  lemma RelaxingFilterKeepsRecord(f: Factura, q: Filters)
    requires Matches(f, q)
    ensures Matches(f, q.(searchTerm := ""))
    ensures Matches(f, q.(filterEmpresa := All))
    ensures Matches(f, q.(filterEstado := All))
  {
  }

  /** `Array.prototype.filter`: the elements that satisfy `p`, in their order. */
  function Filter<T(!new)>(p: T -> bool, s: seq<T>): (r: seq<T>)
    ensures |r| <= |s|
    ensures forall x :: x in r <==> x in s && p(x)
  {
    if s == [] then []
    else (if p(s[0]) then [s[0]] else []) + Filter(p, s[1..])
  }

  /** `sel` picks out `r` from `s` at strictly increasing positions, among them every
      position whose element satisfies `p`. */
  ghost predicate Selects<T>(s: seq<T>, r: seq<T>, p: T -> bool, sel: seq<int>)
  {
    |sel| == |r|
    && (forall k :: 0 <= k < |sel| ==> 0 <= sel[k] < |s| && r[k] == s[sel[k]])
    && (forall k, l :: 0 <= k < l < |sel| ==> sel[k] < sel[l])
    && (forall i :: 0 <= i < |s| && p(s[i]) ==> i in sel)
  }

  /** A selection from `s[1..]`, moved one position right, selects from `s` everything
      but the first element. */
  lemma ShiftSelection<T(!new)>(s: seq<T>, r: seq<T>, p: T -> bool, sel: seq<int>) returns (shifted: seq<int>)
    requires s != [] && Selects(s[1..], r, p, sel)
    ensures |shifted| == |r|
    ensures forall k :: 0 <= k < |shifted| ==> 1 <= shifted[k] < |s| && r[k] == s[shifted[k]]
    ensures forall k, l :: 0 <= k < l < |shifted| ==> shifted[k] < shifted[l]
    ensures forall i :: 1 <= i < |s| && p(s[i]) ==> i in shifted
  {
    shifted := seq(|sel|, k requires 0 <= k < |sel| => sel[k] + 1);
    forall i | 1 <= i < |s| && p(s[i])
      ensures i in shifted
    {
      assert s[1..][i - 1] == s[i];
      var k :| 0 <= k < |sel| && sel[k] == i - 1;
      assert shifted[k] == i;
    }
  }

  /** Putting the first element in front of a shifted selection selects it as well. */
  lemma PrependFirst<T(!new)>(s: seq<T>, r: seq<T>, p: T -> bool, shifted: seq<int>)
    requires s != [] && |shifted| == |r|
    requires forall k :: 0 <= k < |shifted| ==> 1 <= shifted[k] < |s| && r[k] == s[shifted[k]]
    requires forall k, l :: 0 <= k < l < |shifted| ==> shifted[k] < shifted[l]
    requires forall i :: 1 <= i < |s| && p(s[i]) ==> i in shifted
    ensures Selects(s, [s[0]] + r, p, [0] + shifted)
  {
    var sel, rr := [0] + shifted, [s[0]] + r;
    assert forall k :: 1 <= k < |sel| ==> sel[k] == shifted[k - 1] && rr[k] == r[k - 1];
  }

  /** When the first element fails, the shifted selection already selects from `s`. */
  lemma SkipFirst<T(!new)>(s: seq<T>, r: seq<T>, p: T -> bool, shifted: seq<int>)
    requires s != [] && !p(s[0]) && |shifted| == |r|
    requires forall k :: 0 <= k < |shifted| ==> 1 <= shifted[k] < |s| && r[k] == s[shifted[k]]
    requires forall k, l :: 0 <= k < l < |shifted| ==> shifted[k] < shifted[l]
    requires forall i :: 1 <= i < |s| && p(s[i]) ==> i in shifted
    ensures Selects(s, r, p, shifted)
  {
  }

  /** `filter` keeps order and drops nothing that passes: its result is the input read at
      strictly increasing positions, and those include every position that passes. */
  lemma {:induction false} FilterSelection<T(!new)>(p: T -> bool, s: seq<T>) returns (idx: seq<int>)
    ensures Selects(s, Filter(p, s), p, idx)
  {
    if s == [] {
      idx := [];
    } else {
      var tail := Filter(p, s[1..]);
      var rest := FilterSelection(p, s[1..]);
      var shifted := ShiftSelection(s, tail, p, rest);
      if p(s[0]) {
        assert Filter(p, s) == [s[0]] + tail;
        PrependFirst(s, tail, p, shifted);
        idx := [0] + shifted;
      } else {
        assert Filter(p, s) == tail;
        SkipFirst(s, tail, p, shifted);
        idx := shifted;
      }
    }
  }

  /** A filter that every element passes keeps the whole input. */
  lemma {:induction false} FilterKeepsAll<T(!new)>(p: T -> bool, s: seq<T>)
    requires forall i :: 0 <= i < |s| ==> p(s[i])
    ensures Filter(p, s) == s
  {
    if s != [] {
      FilterKeepsAll(p, s[1..]);
      assert s == [s[0]] + s[1..];
    }
  }

  /** `filteredFacturas`: the records that pass all three filters. */
  function FilteredFacturas(fs: seq<Factura>, q: Filters): (r: seq<Factura>)
    ensures |r| <= |fs|
    ensures forall f :: f in r <==> f in fs && Matches(f, q)
  {
    Filter(f => Matches(f, q), fs)
  }

  /** The filtered list is exactly the matching records in their original order: it is
      `fs` read at a strictly increasing list of positions, and that list holds every
      position whose record matches. */
  lemma FilteredSelection(fs: seq<Factura>, q: Filters) returns (idx: seq<int>)
    ensures |idx| == |FilteredFacturas(fs, q)|
    ensures forall k :: 0 <= k < |idx| ==> 0 <= idx[k] < |fs| && FilteredFacturas(fs, q)[k] == fs[idx[k]]
    ensures forall k, l :: 0 <= k < l < |idx| ==> idx[k] < idx[l]
    ensures forall i :: 0 <= i < |fs| && Matches(fs[i], q) ==> i in idx
  {
    idx := FilterSelection(f => Matches(f, q), fs);
  }

  /** With an empty search and both selectors on "all", the table shows every record. */
  lemma InitialFiltersKeepAll(fs: seq<Factura>)
    ensures FilteredFacturas(fs, InitialFilters) == fs
  {
    FilterKeepsAll(f => Matches(f, InitialFilters), fs);
  }

  /** The search ignores the case of ASCII letters in the term. */
  lemma SearchIgnoresCase(f: Factura, term: string)
    ensures MatchesSearch(f, term) <==> MatchesSearch(f, Lower(term))
  {
    LowerIdempotent(term);
    assert term == "" <==> Lower(term) == "";
  }

  /** A record "ACME Corp" is found by the term "acme". */
  lemma SearchScenario(f: Factura)
    requires f.razonSocial == "ACME Corp"
    ensures Matches(f, Filters("acme", All, All))
  {
    assert Lower("acme") == "acme";
    assert Lower(f.razonSocial)[..4] == "acme";
    assert OccursAt(Lower(f.razonSocial), "acme", 0);
  }

  /** A non-empty term matches exactly when its lower-cased form occurs somewhere in
      one of the four lower-cased searched fields. */
  lemma SearchFindsSubstring(f: Factura, term: string)
    requires term != ""
    ensures MatchesSearch(f, term) <==>
      exists field, i :: field in [f.razonSocial, f.empresa, f.concepto, f.facturaN]
        && OccursAt(Lower(field), Lower(term), i)
  {
    var fields := [f.razonSocial, f.empresa, f.concepto, f.facturaN];
    if MatchesSearch(f, term) {
      var field := if Includes(Lower(f.razonSocial), Lower(term)) then f.razonSocial
        else if Includes(Lower(f.empresa), Lower(term)) then f.empresa
        else if Includes(Lower(f.concepto), Lower(term)) then f.concepto
        else f.facturaN;
      assert Includes(Lower(field), Lower(term));
      var i :| OccursAt(Lower(field), Lower(term), i);
      assert field in fields;
    }
    if exists field, i :: field in fields && OccursAt(Lower(field), Lower(term), i) {
      var field, i :| field in fields && OccursAt(Lower(field), Lower(term), i);
      assert Includes(Lower(field), Lower(term));
    }
  }

  /** The company filter compares exactly: "acme" does not pick out the company "Acme". */
  lemma EmpresaFilterIsCaseSensitive(f: Factura)
    requires f.empresa == "Acme"
    ensures MatchesEmpresa(f, "Acme")
    ensures !MatchesEmpresa(f, "acme")
  {
    assert "Acme"[0] != "acme"[0];
  }

  /** Choosing a status in the status filter keeps exactly the records with that status. */
  lemma StatusFilterSelects(f: Factura, e: EstadoFactura)
    ensures MatchesEstado(f, Value(e)) <==> f.estado == e
  {
    ValueInjective(f.estado, e);
  }

  /** `s` without the occurrences of `x`. */
  function Without(s: seq<EstadoFactura>, x: EstadoFactura): (r: seq<EstadoFactura>)
    ensures forall y :: y in r <==> y in s && y != x
    ensures x !in s ==> r == s
  {
    if s == [] then []
    else (if s[0] == x then [] else [s[0]]) + Without(s[1..], x)
  }

  /** The statuses the status filter offers: all but ANULADO, in declaration order. */
  function StatusOptions(): (r: seq<EstadoFactura>)
    ensures r == [COBRADO, IMPAGO, PENDIENTE]
    ensures ANULADO !in r
  {
    var all := AllEstados();
    assert all[1..][1..][1..][1..] == [];
    Without(all, ANULADO)
  }

  /** The values the status selector can hold: "all" and the offered statuses. */
  function EstadoFilterValues(): (r: seq<string>)
    ensures r == [All, "COBRADO", "IMPAGO", "PENDIENTE"]
  {
    var options := StatusOptions();
    [All] + seq(|options|, i requires 0 <= i < |options| => Value(options[i]))
  }

  /** An ANULADO record shows only while the status filter is on "all": no value the
      selector offers picks it out. */
  lemma AnuladoOnlyUnderAll(f: Factura, filterEstado: string)
    requires filterEstado in EstadoFilterValues()
    requires f.estado == ANULADO
    ensures MatchesEstado(f, filterEstado) <==> filterEstado == All
  {
  }

  /** `facturas.map(f => f.empresa)`. */
  function Empresas(fs: seq<Factura>): (r: seq<string>)
    ensures |r| == |fs|
    ensures forall i :: 0 <= i < |fs| ==> r[i] == fs[i].empresa
  {
    seq(|fs|, i requires 0 <= i < |fs| => fs[i].empresa)
  }

  ghost predicate NoDuplicates<T>(s: seq<T>)
  {
    forall i, j :: 0 <= i < j < |s| ==> s[i] != s[j]
  }

  /** `Array.from(new Set(s))`: each value once, at the place it first occurs. */
  function Distinct(s: seq<string>): (r: seq<string>)
    ensures forall x :: x in r <==> x in s
    ensures NoDuplicates(r)
  {
    if s == [] then []
    else
      var init, last := s[..|s| - 1], s[|s| - 1];
      assert s == init + [last];
      if last in init then Distinct(init) else Distinct(init) + [last]
  }

  lemma {:induction false} NoDuplicatesCount<T>(s: seq<T>, x: T)
    requires NoDuplicates(s)
    ensures multiset(s)[x] <= 1
  {
    if s != [] {
      NoDuplicatesCount(s[1..], x);
      assert s == [s[0]] + s[1..];
      if s[0] == x {
        assert x !in s[1..];
      }
    }
  }

  lemma DuplicateCount<T>(t: seq<T>, i: int, j: int)
    requires 0 <= i < j < |t| && t[i] == t[j]
    ensures multiset(t)[t[i]] >= 2
  {
    assert t == t[..j] + t[j..];
    assert t[i] in multiset(t[..j]) && t[j] in multiset(t[j..]);
  }

  /** A permutation of a list without duplicates has none either. */
  lemma PermutationKeepsNoDuplicates<T>(s: seq<T>, t: seq<T>)
    requires NoDuplicates(s) && multiset(s) == multiset(t)
    ensures NoDuplicates(t)
  {
    forall i, j | 0 <= i < j < |t|
      ensures t[i] != t[j]
    {
      NoDuplicatesCount(s, t[i]);
      if t[i] == t[j] {
        DuplicateCount(t, i, j);
      }
    }
  }

  /** The comparator of the default `sort()`: string order. */
  function StringCompare(a: string, b: string): (r: int)
    ensures r == 0 <==> a == b
    ensures r < 0 <==> StrLess(a, b)
  {
    StrLessTotal(a, b);
    StrLessIrreflexive(a);
    if StrLess(a, b) then -1 else if StrLess(b, a) then 1 else 0
  }

  lemma StringCompareIsComparator()
    ensures IsComparator(StringCompare)
  {
    forall a, b
      ensures StringCompare(a, b) < 0 <==> StringCompare(b, a) > 0
    {
      if StrLess(a, b) {
        StrLessAsymmetric(a, b);
      }
    }
    forall a, b, c | StringCompare(a, b) <= 0 && StringCompare(b, c) <= 0
      ensures StringCompare(a, c) <= 0
    {
      StrLessTotal(a, b);
      StrLessTotal(b, c);
      if StrLess(c, a) {
        if StrLess(a, b) {
          StrLessAsymmetric(a, b);
        }
        if StrLess(b, c) {
          StrLessAsymmetric(b, c);
        }
        if StrLess(a, b) && StrLess(b, c) {
          StrLessTransitive(a, b, c);
          StrLessAsymmetric(a, c);
        } else if StrLess(a, b) {
          StrLessAsymmetric(a, b);
        }
      }
    }
  }

  /** Sorting a list without duplicates by string order makes it strictly ascending. */
  lemma SortedDistinctIsStrict(d: seq<string>)
    requires NoDuplicates(d)
    ensures forall i, j :: 0 <= i < j < |InsertionSort(StringCompare, d)| ==>
      StrLess(InsertionSort(StringCompare, d)[i], InsertionSort(StringCompare, d)[j])
    ensures forall e :: e in InsertionSort(StringCompare, d) <==> e in d
  {
    var r := InsertionSort(StringCompare, d);
    StringCompareIsComparator();
    InsertionSortPermutes(StringCompare, d);
    InsertionSortSorted(StringCompare, d);
    PermutationKeepsNoDuplicates(d, r);
    forall i, j | 0 <= i < j < |r|
      ensures StrLess(r[i], r[j])
    {
      assert StringCompare(r[i], r[j]) <= 0;
      StrLessTotal(r[i], r[j]);
    }
    forall e
      ensures e in r <==> e in d
    {
      assert e in r <==> e in multiset(r);
      assert e in d <==> e in multiset(d);
    }
  }

  lemma EmpresasMembers(fs: seq<Factura>)
    ensures forall e :: e in Empresas(fs) <==> exists f :: f in fs && f.empresa == e
  {
    var names := Empresas(fs);
    forall e
      ensures e in names <==> exists f :: f in fs && f.empresa == e
    {
      if e in names {
        var i :| 0 <= i < |names| && names[i] == e;
        assert fs[i] in fs;
      }
      if exists f :: f in fs && f.empresa == e {
        var f :| f in fs && f.empresa == e;
        var i :| 0 <= i < |fs| && fs[i] == f;
        assert names[i] == e;
      }
    }
  }

  /** `uniqueEmpresas`: the companies of the loaded records, each once, in ascending
      string order. */
  function UniqueEmpresas(fs: seq<Factura>): (r: seq<string>)
    ensures forall i, j :: 0 <= i < j < |r| ==> StrLess(r[i], r[j])
    ensures forall e :: e in r <==> exists f :: f in fs && f.empresa == e
  {
    var distinct := Distinct(Empresas(fs));
    SortedDistinctIsStrict(distinct);
    EmpresasMembers(fs);
    InsertionSort(StringCompare, distinct)
  }

  /** Every company the company selector offers picks out at least one record. */
  lemma OfferedEmpresaSelectsSome(fs: seq<Factura>, e: string)
    requires e in UniqueEmpresas(fs)
    ensures FilteredFacturas(fs, Filters("", e, All)) != []
  {
    var f :| f in fs && f.empresa == e;
    assert Matches(f, Filters("", e, All));
    assert f in FilteredFacturas(fs, Filters("", e, All));
  }

  /** "Pendiente de Cobro": what was billed and not collected. */
  function PendienteDeCobro(k: KpiData): (r: int)
    ensures r + k.totalCobrado == k.totalFacturado
  {
    k.totalFacturado - k.totalCobrado
  }

  /** The figure does not read `totalImpago`: with one collected (100), one unpaid (50)
      and one pending (30) invoice it shows 80, the unpaid and the pending together. */
  lemma PendienteIsNotImpago(k: KpiData, impago: int)
    ensures PendienteDeCobro(k.(totalImpago := impago)) == PendienteDeCobro(k)
    ensures PendienteDeCobro(KpiData(180, 100, 50, 3)) == 80
  {
  }

  /** Every row the table shows is a loaded record that passes the filters. */
  lemma ShownRowsMatchFilters(fs: seq<Factura>, q: Filters, cfg: DataTable.SortConfig, page: int)
    requires page >= 0
    ensures forall f :: f in DataTable.Page(DataTable.SortRows(FilteredFacturas(fs, q), cfg), page) ==>
      f in fs && Matches(f, q)
  {
    var filtered := FilteredFacturas(fs, q);
    var sorted := DataTable.SortRows(filtered, cfg);
    DataTable.PageWithinRows(sorted, page);
    forall f | f in sorted
      ensures f in filtered
    {
      assert f in multiset(sorted);
    }
  }
}
