/** The record model of the invoice dashboard: one invoice line (`Factura`),
    its closed status enumeration and the derived summary shapes.
    Amounts are integer cents, dates are integer day numbers. */
module Types {

  datatype Option<+T> = None | Some(value: T)

  /** The four invoice statuses, in declaration order. */
  datatype EstadoFactura = COBRADO | IMPAGO | PENDIENTE | ANULADO

  /** The string value each enumeration member carries (its own name). */
  function Value(e: EstadoFactura): (s: string)
    ensures s in ["COBRADO", "IMPAGO", "PENDIENTE", "ANULADO"]
  {
    match e
    case COBRADO => "COBRADO"
    case IMPAGO => "IMPAGO"
    case PENDIENTE => "PENDIENTE"
    case ANULADO => "ANULADO"
  }

  /** `Object.values(EstadoFactura)`: every member exactly once, in declaration order. */
  function AllEstados(): (r: seq<EstadoFactura>)
    ensures |r| == 4
    ensures forall i, j :: 0 <= i < j < |r| ==> r[i] != r[j]
    ensures forall e: EstadoFactura :: e in r
    ensures r[0] == COBRADO && r[3] == ANULADO
  {
    var r := [COBRADO, IMPAGO, PENDIENTE, ANULADO];
    assert forall e: EstadoFactura :: e in r by {
      forall e: EstadoFactura ensures e in r {
        Listed(e, r);
      }
    }
    r
  }

  lemma Listed(e: EstadoFactura, r: seq<EstadoFactura>)
    requires r == [COBRADO, IMPAGO, PENDIENTE, ANULADO]
    ensures e in r
  {
    match e
    case COBRADO => assert r[0] == e;
    case IMPAGO => assert r[1] == e;
    case PENDIENTE => assert r[2] == e;
    case ANULADO => assert r[3] == e;
  }

  /** Looks a string up among the enumeration's values. */
  function FromValue(s: string): (r: Option<EstadoFactura>)
    ensures r.Some? ==> Value(r.value) == s
    ensures r.None? ==> forall e: EstadoFactura :: Value(e) != s
  {
    if s == "COBRADO" then Some(COBRADO)
    else if s == "IMPAGO" then Some(IMPAGO)
    else if s == "PENDIENTE" then Some(PENDIENTE)
    else if s == "ANULADO" then Some(ANULADO)
    else None
  }

  /** Every status survives the trip to its string value and back. */
  lemma ValueRoundTrip(e: EstadoFactura)
    ensures FromValue(Value(e)) == Some(e)
  {
  }

  /** Distinct statuses carry distinct string values. */
  lemma ValueInjective(a: EstadoFactura, b: EstadoFactura)
    ensures Value(a) == Value(b) <==> a == b
  {
    ValueRoundTrip(a);
    ValueRoundTrip(b);
  }

  /** One invoice line. `estado` is always exactly one of the four statuses. */
  datatype Factura = Factura(
    razonSocial: string,
    empresa: string,
    puntoVenta: int,
    fechaRegistro: int,
    facturaN: string,
    concepto: string,
    cantidad: int,
    precioUnitario: int,
    subtotal: int,
    alicuotaIva: real,
    subtotalConIva: int,
    estado: EstadoFactura,
    quincenaTexto: string)

  /** Headline figures: three amounts and one count. */
  datatype KpiData = KpiData(
    totalFacturado: int,
    totalCobrado: int,
    totalImpago: int,
    cantidadFacturas: int)

  /** One point of the monthly sales series. */
  datatype MonthlySales = MonthlySales(name: string, total: int)

  /** One client of the client breakdown. */
  datatype ClientData = ClientData(name: string, value: int)

  /** One slice of the status distribution. */
  datatype StatusData = StatusData(name: string, value: int)
}
