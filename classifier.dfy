/**
  calcularProductos: classifies products by expiry against a reference
  instant `hoy`, collects the enriched copies into the porVencer (critical)
  and vencidos (expired) buckets, and builds the Base64 flag table.
 */
module Classifier {

  import opened Wrappers
  import opened JsonValues
  import Calendar
  import Decimal
  import Utf8
  import Base64
  import opened Filtering

  datatype Estado = Vencido | Critico | Normal

  /**
    The part of customerData the classifier reads: FechaVencimiento as an
    instant, and DiasRetiro when it is present and truthy.
   */
  datatype CustomerData = CustomerData(fechaVencimiento: int, diasRetiro: Option<int>)

  /** The `calculado` sub-record attached to each copy. */
  datatype Calculado = Calculado(
    diasRestantes: int,
    fechaRetiro: string,
    fechaVencimientoFormateada: string,
    estado: Estado)

  /**
    A product: its `_id`, its customerData, every other member (mbData and
    whatever else the payload carries) and the `calculado` member if it has one.
   */
  datatype Product = Product(
    id: string,
    customerData: CustomerData,
    others: map<string, Json>,
    calculado: Option<Calculado>)

  /**
    A product record as a JavaScript object: the members held in `others` never
    repeat the names of the members the record keeps apart.
   */
  predicate WellFormed(p: Product) {
    "_id" !in p.others && "customerData" !in p.others && "calculado" !in p.others
  }

  /** `DiasRetiro || 0`: a missing or falsy lead time counts as 0 days. */
  function LeadDays(cd: CustomerData): (k: int)
    ensures cd.diasRetiro.None? ==> k == 0
    ensures cd.diasRetiro.Some? ==> k == cd.diasRetiro.value
  {
    match cd.diasRetiro
    case Some(k) => k
    case None => 0
  }

  /** Math.floor((fechaVencimiento - hoy) / (1000 * 60 * 60 * 24)): whole days left, rounded down. */
  function DiasRestantes(fechaVencimiento: int, hoy: int): (d: int)
    ensures d < 0 <==> fechaVencimiento < hoy
  {
    (fechaVencimiento - hoy) / Calendar.MsPerDay
  }

  /** diasRestantes is the day difference rounded down: the largest d with d whole days not past expiry. */
  lemma DiasRestantesIsFloor(fechaVencimiento: int, hoy: int)
    ensures var d := DiasRestantes(fechaVencimiento, hoy);
      d * Calendar.MsPerDay <= fechaVencimiento - hoy < (d + 1) * Calendar.MsPerDay
  {
  }

  /** For instants at the same time of day (whole-day dates) diasRestantes is exactly the difference of the day numbers. */
  lemma DiasRestantesWholeDays(fechaVencimiento: int, hoy: int)
    requires fechaVencimiento % Calendar.MsPerDay == hoy % Calendar.MsPerDay
    ensures DiasRestantes(fechaVencimiento, hoy)
         == fechaVencimiento / Calendar.MsPerDay - hoy / Calendar.MsPerDay
  {
  }

  /** `fechaRetiro.setDate(fechaRetiro.getDate() - diasRetiro)` on a copy of the expiry instant. */
  function FechaRetiro(fechaVencimiento: int, diasRetiro: int): int
  {
    Calendar.AddDays(fechaVencimiento, -diasRetiro)
  }

  /** The withdrawal instant lies diasRetiro calendar days before expiry, at the same time of day. */
  lemma FechaRetiroSameTimeOfDay(fechaVencimiento: int, diasRetiro: int)
    ensures var t := FechaRetiro(fechaVencimiento, diasRetiro);
      && t / Calendar.MsPerDay == fechaVencimiento / Calendar.MsPerDay - diasRetiro
      && t % Calendar.MsPerDay == fechaVencimiento % Calendar.MsPerDay
      && Calendar.CivilOfInstant(t) == Calendar.CivilFromDays(fechaVencimiento / Calendar.MsPerDay - diasRetiro)
  {
    Calendar.AddDaysCivil(fechaVencimiento, -diasRetiro);
  }

  /** The status rule of calcularProductos, tested in this order: expired, critical, normal. */
  function EstadoOf(cd: CustomerData, hoy: int): Estado
  {
    if DiasRestantes(cd.fechaVencimiento, hoy) < 0 then Vencido
    else if hoy >= FechaRetiro(cd.fechaVencimiento, LeadDays(cd)) then Critico
    else Normal
  }

  /**
    Exactly one status holds, in priority order: expired iff expiry lies before hoy;
    critical iff not expired and the withdrawal instant has been reached; normal otherwise.
   */
  lemma EstadoRule(cd: CustomerData, hoy: int)
    ensures var e, fv, retiro := EstadoOf(cd, hoy), cd.fechaVencimiento, FechaRetiro(cd.fechaVencimiento, LeadDays(cd));
      && (e == Vencido <==> fv < hoy)
      && (e == Critico <==> hoy <= fv && retiro <= hoy)
      && (e == Normal <==> hoy <= fv && hoy < retiro)
  {
  }

  /** With no (or a zero) lead time the withdrawal instant is the expiry instant, so a product is critical only at expiry itself. */
  lemma ZeroLeadTime(cd: CustomerData, hoy: int)
    requires LeadDays(cd) == 0
    ensures FechaRetiro(cd.fechaVencimiento, LeadDays(cd)) == cd.fechaVencimiento
    ensures EstadoOf(cd, hoy) == Critico <==> hoy == cd.fechaVencimiento
  {
  }

  /** A negative lead time puts the withdrawal after expiry: such a product is never critical. */
  lemma NegativeLeadTimeNeverCritical(cd: CustomerData, hoy: int)
    requires LeadDays(cd) < 0
    ensures EstadoOf(cd, hoy) != Critico
  {
  }

  /** The `calculado` record of one product. */
  function Calcular(p: Product, hoy: int): Calculado
  {
    var fv := p.customerData.fechaVencimiento;
    Calculado(
      DiasRestantes(fv, hoy),
      Calendar.FormatDate(FechaRetiro(fv, LeadDays(p.customerData))),
      Calendar.FormatDate(fv),
      EstadoOf(p.customerData, hoy))
  }

  /** `{ ...producto, calculado }`: a copy of p with its calculado member set. */
  function Enrich(p: Product, hoy: int): Product
  {
    p.(calculado := Some(Calcular(p, hoy)))
  }

  /** The enriched copy differs from the product only in `calculado`, which holds the values computed for it. */
  lemma EnrichedCopy(p: Product, hoy: int)
    ensures var r := Enrich(p, hoy);
      && r.id == p.id && r.customerData == p.customerData && r.others == p.others
      && r.calculado.Some?
      && r.calculado.value.estado == EstadoOf(p.customerData, hoy)
      && r.calculado.value.diasRestantes == DiasRestantes(p.customerData.fechaVencimiento, hoy)
      && r.(calculado := p.calculado) == p
      && (WellFormed(p) ==> WellFormed(r))
  {
  }

  /** The test of one bucket: the product's status is e. */
  function HasEstado(hoy: int, e: Estado): Product -> bool {
    (p: Product) => EstadoOf(p.customerData, hoy) == e
  }

  function EnrichAt(hoy: int): Product -> Product {
    (p: Product) => Enrich(p, hoy)
  }

  /** The enriched copies of the products whose status is e, in input order. */
  function Bucket(ps: seq<Product>, hoy: int, e: Estado): seq<Product>
  {
    Filter(ps, HasEstado(hoy, e), EnrichAt(hoy))
  }

  /**
    A bucket is the input filtered by status, in input order: its k-th record is the
    enriched copy of the product at the k-th ascending input position with status e,
    and every product with status e has its position listed.
   */
  lemma BucketInInputOrder(ps: seq<Product>, hoy: int, e: Estado)
    ensures |Positions(ps, HasEstado(hoy, e))| == |Bucket(ps, hoy, e)|
    ensures forall k :: 0 <= k < |Positions(ps, HasEstado(hoy, e))| ==>
      && Positions(ps, HasEstado(hoy, e))[k] < |ps|
      && EstadoOf(ps[Positions(ps, HasEstado(hoy, e))[k]].customerData, hoy) == e
      && Bucket(ps, hoy, e)[k] == Enrich(ps[Positions(ps, HasEstado(hoy, e))[k]], hoy)
    ensures forall j, k :: 0 <= j < k < |Positions(ps, HasEstado(hoy, e))| ==>
      Positions(ps, HasEstado(hoy, e))[j] < Positions(ps, HasEstado(hoy, e))[k]
    ensures forall i :: 0 <= i < |ps| && EstadoOf(ps[i].customerData, hoy) == e ==>
      i in Positions(ps, HasEstado(hoy, e))
  {
    FilterInOrder(ps, HasEstado(hoy, e), EnrichAt(hoy));
  }

  /** The enriched copy of a product is in the bucket of status e iff the product's status is e. */
  lemma BucketMembership(ps: seq<Product>, hoy: int, e: Estado, i: nat)
    requires i < |ps|
    ensures Enrich(ps[i], hoy) in Bucket(ps, hoy, e) <==> EstadoOf(ps[i].customerData, hoy) == e
  {
    if EstadoOf(ps[i].customerData, hoy) == e {
      FilterContains(ps, HasEstado(hoy, e), EnrichAt(hoy), i);
    } else if Enrich(ps[i], hoy) in Bucket(ps, hoy, e) {
      FilterFrom(ps, HasEstado(hoy, e), EnrichAt(hoy), Enrich(ps[i], hoy));
      assert false;
    }
  }

  /** Every record of a bucket is the enriched copy of an input product of that status and carries that status. */
  lemma BucketRecord(ps: seq<Product>, hoy: int, e: Estado, r: Product)
    requires r in Bucket(ps, hoy, e)
    ensures exists i :: 0 <= i < |ps| && EstadoOf(ps[i].customerData, hoy) == e && r == Enrich(ps[i], hoy)
    ensures r.calculado.Some? && r.calculado.value.estado == e
  {
    FilterFrom(ps, HasEstado(hoy, e), EnrichAt(hoy), r);
    var i :| 0 <= i < |ps| && HasEstado(hoy, e)(ps[i]) && r == EnrichAt(hoy)(ps[i]);
    assert r == Enrich(ps[i], hoy);
  }

  /** No record is in both porVencer and vencidos. */
  lemma BucketsDisjoint(ps: seq<Product>, hoy: int, r: Product)
    requires r in Bucket(ps, hoy, Critico)
    ensures r !in Bucket(ps, hoy, Vencido)
  {
    BucketRecord(ps, hoy, Critico, r);
    if r in Bucket(ps, hoy, Vencido) {
      BucketRecord(ps, hoy, Vencido, r);
    }
  }

  /** Every product lands in exactly one status class: the three filtered sizes add up to the input size. */
  lemma {:induction false} BucketsPartition(ps: seq<Product>, hoy: int)
    ensures |Bucket(ps, hoy, Vencido)| + |Bucket(ps, hoy, Critico)| + |Bucket(ps, hoy, Normal)| == |ps|
  {
    if ps != [] {
      BucketsPartition(ps[1..], hoy);
    }
  }

  /** vencidos and porVencer together hold at most one record per product. */
  lemma BucketSizes(ps: seq<Product>, hoy: int)
    ensures |Bucket(ps, hoy, Critico)| + |Bucket(ps, hoy, Vencido)| <= |ps|
  {
    BucketsPartition(ps, hoy);
  }

  // ---------------------------------------------------------------------------
  // The flag table

  const FlagHeader: string := "id;flag"

  /** `bucket.some(pv => pv._id === id)` */
  predicate HasId(bucket: seq<Product>, id: string) {
    exists k :: 0 <= k < |bucket| && bucket[k].id == id
  }

  predicate Flagged(p: Product, porVencer: seq<Product>, vencidos: seq<Product>) {
    HasId(porVencer, p.id) || HasId(vencidos, p.id)
  }

  /** `${flag}` */
  function BoolText(b: bool): string {
    if b then "true" else "false"
  }

  /** One row `_id;flag` per product, in input order. */
  function FlagRows(ps: seq<Product>, porVencer: seq<Product>, vencidos: seq<Product>): (rows: seq<string>)
    ensures |rows| == |ps|
    ensures forall i :: 0 <= i < |ps| ==>
      rows[i] == ps[i].id + ";" + BoolText(Flagged(ps[i], porVencer, vencidos))
  {
    seq(|ps|, i requires 0 <= i < |ps| => ps[i].id + ";" + BoolText(Flagged(ps[i], porVencer, vencidos)))
  }

  /** `lines.join('\n')` */
  function JoinLines(lines: seq<string>): string
  {
    if lines == [] then ""
    else if |lines| == 1 then lines[0]
    else lines[0] + "\n" + JoinLines(lines[1..])
  }

  /** The pieces of s between newlines (the inverse of JoinLines). */
  function SplitLines(s: string): (lines: seq<string>)
    ensures |lines| >= 1
  {
    if s == [] then [""]
    else
      var rest := SplitLines(s[1..]);
      if s[0] == '\n' then [""] + rest
      else [[s[0]] + rest[0]] + rest[1..]
  }

  /** `id;flag\n` followed by the rows joined by newlines. */
  function FlagText(ps: seq<Product>, porVencer: seq<Product>, vencidos: seq<Product>): string
  {
    FlagHeader + "\n" + JoinLines(FlagRows(ps, porVencer, vencidos))
  }

  /** The `todosConFlagBase64` field: the flag text as UTF-8 bytes, in Base64. */
  function FlagSummary(ps: seq<Product>, porVencer: seq<Product>, vencidos: seq<Product>): string
  {
    Base64.Encode(Utf8.Encode(FlagText(ps, porVencer, vencidos)))
  }

  /** A bucket has a record with a given `_id` iff some input product with that `_id` has the bucket's status. */
  lemma BucketHasId(ps: seq<Product>, hoy: int, e: Estado, id: string)
    ensures HasId(Bucket(ps, hoy, e), id)
        <==> exists i :: 0 <= i < |ps| && ps[i].id == id && EstadoOf(ps[i].customerData, hoy) == e
  {
    var b := Bucket(ps, hoy, e);
    if HasId(b, id) {
      var k :| 0 <= k < |b| && b[k].id == id;
      BucketRecord(ps, hoy, e, b[k]);
      var i :| 0 <= i < |ps| && EstadoOf(ps[i].customerData, hoy) == e && b[k] == Enrich(ps[i], hoy);
      assert ps[i].id == id;
    }
    if exists i :: 0 <= i < |ps| && ps[i].id == id && EstadoOf(ps[i].customerData, hoy) == e {
      var i :| 0 <= i < |ps| && ps[i].id == id && EstadoOf(ps[i].customerData, hoy) == e;
      BucketMembership(ps, hoy, e, i);
      var k :| 0 <= k < |b| && b[k] == Enrich(ps[i], hoy);
      assert b[k].id == id;
    }
  }

  /**
    The flag written for a product is true iff some input product with the same `_id`
    (the product itself or another one) is expired or critical.
   */
  lemma FlagMeaning(ps: seq<Product>, hoy: int, p: Product)
    ensures Flagged(p, Bucket(ps, hoy, Critico), Bucket(ps, hoy, Vencido))
        <==> exists i :: 0 <= i < |ps| && ps[i].id == p.id && EstadoOf(ps[i].customerData, hoy) != Normal
  {
    BucketHasId(ps, hoy, Critico, p.id);
    BucketHasId(ps, hoy, Vencido, p.id);
  }

  /**
    Row i of the table written for the two buckets is the i-th `_id`, a `;` and `true`
    exactly when some input product with that `_id` is expired or critical.
   */
  lemma FlagRowsByStatus(ps: seq<Product>, hoy: int, i: nat)
    requires i < |ps|
    ensures FlagRows(ps, Bucket(ps, hoy, Critico), Bucket(ps, hoy, Vencido))[i]
         == ps[i].id + ";" + BoolText(exists j :: 0 <= j < |ps| && ps[j].id == ps[i].id
                                                && EstadoOf(ps[j].customerData, hoy) != Normal)
  {
    FlagMeaning(ps, hoy, ps[i]);
  }

  /** With pairwise distinct `_id`s a row's flag is true exactly when its own product is expired or critical. */
  lemma FlagOfDistinctIds(ps: seq<Product>, hoy: int, i: nat)
    requires i < |ps|
    requires forall j, k :: 0 <= j < k < |ps| ==> ps[j].id != ps[k].id
    ensures Flagged(ps[i], Bucket(ps, hoy, Critico), Bucket(ps, hoy, Vencido))
        <==> EstadoOf(ps[i].customerData, hoy) != Normal
  {
    FlagMeaning(ps, hoy, ps[i]);
  }

  /** The flag is looked up by `_id`: a NORMAL product sharing its `_id` with an expired or critical one is flagged true. */
  lemma SharedIdFlagged(ps: seq<Product>, hoy: int, i: nat, j: nat)
    requires i < |ps| && j < |ps| && ps[i].id == ps[j].id
    requires EstadoOf(ps[j].customerData, hoy) != Normal
    ensures Flagged(ps[i], Bucket(ps, hoy, Critico), Bucket(ps, hoy, Vencido))
  {
    FlagMeaning(ps, hoy, ps[i]);
  }

  predicate NoNewline(s: string) {
    forall k :: 0 <= k < |s| ==> s[k] != '\n'
  }

  lemma NoNewlineConcat(a: string, b: string)
    requires NoNewline(a) && NoNewline(b)
    ensures NoNewline(a + b)
  {
    forall k | 0 <= k < |a + b|
      ensures (a + b)[k] != '\n'
    {
      if k >= |a| {
        assert (a + b)[k] == b[k - |a|];
      }
    }
  }

  /** Splitting text that starts with a newline-free piece a: a is glued to the first line of the rest. */
  lemma {:induction false} SplitLinesPrefix(a: string, s: string)
    requires NoNewline(a)
    ensures SplitLines(a + s) == [a + SplitLines(s)[0]] + SplitLines(s)[1..]
  {
    if a == [] {
      var t := SplitLines(s);
      assert a + s == s && a + t[0] == t[0];
      assert [t[0]] + t[1..] == t;
    } else {
      assert (a + s)[1..] == a[1..] + s;
      SplitLinesPrefix(a[1..], s);
      assert [a[0]] + (a[1..] + SplitLines(s)[0]) == a + SplitLines(s)[0];
    }
  }

  lemma SplitLinesNewline(s: string)
    ensures SplitLines("\n" + s) == [""] + SplitLines(s)
  {
    assert ("\n" + s)[1..] == s;
  }

  /** SplitLines undoes JoinLines on a non-empty list of newline-free lines. */
  lemma {:induction false} SplitJoinLines(lines: seq<string>)
    requires |lines| >= 1
    requires forall i :: 0 <= i < |lines| ==> NoNewline(lines[i])
    ensures SplitLines(JoinLines(lines)) == lines
  {
    if |lines| == 1 {
      SplitLinesPrefix(lines[0], "");
      assert lines[0] + "" == lines[0];
    } else {
      SplitJoinLines(lines[1..]);
      var rest := JoinLines(lines[1..]);
      SplitLinesNewline(rest);
      SplitLinesPrefix(lines[0], "\n" + rest);
      assert JoinLines(lines) == lines[0] + ("\n" + rest);
      assert lines[0] + "" == lines[0];
      assert lines == [lines[0]] + lines[1..];
    }
  }

  /**
    The flag text read line by line: the header `id;flag`, then one `_id;flag` row per
    input product in input order (a single empty line when there are no products).
   */
  lemma FlagTextLines(ps: seq<Product>, porVencer: seq<Product>, vencidos: seq<Product>)
    requires forall i :: 0 <= i < |ps| ==> NoNewline(ps[i].id)
    ensures SplitLines(FlagText(ps, porVencer, vencidos))
         == [FlagHeader] + (if ps == [] then [""] else FlagRows(ps, porVencer, vencidos))
  {
    var rows := FlagRows(ps, porVencer, vencidos);
    var body := JoinLines(rows);
    SplitLinesNewline(body);
    SplitLinesPrefix(FlagHeader, "\n" + body);
    assert FlagText(ps, porVencer, vencidos) == FlagHeader + ("\n" + body);
    assert FlagHeader + "" == FlagHeader;
    if ps != [] {
      FlagRowsNoNewline(ps, porVencer, vencidos);
      SplitJoinLines(rows);
    }
  }

  lemma FlagRowsNoNewline(ps: seq<Product>, porVencer: seq<Product>, vencidos: seq<Product>)
    requires forall i :: 0 <= i < |ps| ==> NoNewline(ps[i].id)
    ensures forall i :: 0 <= i < |ps| ==> NoNewline(FlagRows(ps, porVencer, vencidos)[i])
  {
    var rows := FlagRows(ps, porVencer, vencidos);
    forall i | 0 <= i < |ps|
      ensures NoNewline(rows[i])
    {
      var flag := BoolText(Flagged(ps[i], porVencer, vencidos));
      assert NoNewline(flag);
      NoNewlineConcat(ps[i].id, ";");
      NoNewlineConcat(ps[i].id + ";", flag);
    }
  }

  /** Base64-decoding the `todosConFlagBase64` field and then UTF-8-decoding the bytes gives the flag text back. */
  lemma FlagSummaryDecodes(ps: seq<Product>, porVencer: seq<Product>, vencidos: seq<Product>)
    ensures Base64.Decode(FlagSummary(ps, porVencer, vencidos)) == Some(Utf8.Encode(FlagText(ps, porVencer, vencidos)))
    ensures Utf8.Decode(Utf8.Encode(FlagText(ps, porVencer, vencidos))) == Some(FlagText(ps, porVencer, vencidos))
  {
    Base64.DecodeEncode(Utf8.Encode(FlagText(ps, porVencer, vencidos)));
    Utf8.DecodeEncode(FlagText(ps, porVencer, vencidos));
  }

  // ---------------------------------------------------------------------------
  // Worked examples: an item expiring at UTC midnight on 10 January of year y with
  // DiasRetiro 5 (the year 2024 is one instance)

  /** The zero-padded day and month fields used by the worked examples. */
  lemma TwoDigitField(n: nat, t: string)
    requires (n == 1 && t == "01") || (n == 5 && t == "05") || (n == 10 && t == "10")
    ensures Decimal.PadStart(Decimal.NatToString(n), 2, '0') == t
  {
    if n < 10 {
      assert Decimal.NatToString(n) == [Decimal.DigitChar(n)];
    }
  }

  /** The dd-mm-yyyy text of 5 or 10 January of year y. */
  lemma JanuaryText(y: int, d: int, prefix: string)
    requires (d == 5 && prefix == "05-01-") || (d == 10 && prefix == "10-01-")
    ensures Calendar.FormatCivil(Calendar.Civil(y, 1, d)) == prefix + Decimal.IntToString(y)
  {
    var dd := if d == 5 then "05" else "10";
    TwoDigitField(d, dd);
    TwoDigitField(1, "01");
    var yy := Decimal.IntToString(y);
    assert Calendar.FormatCivil(Calendar.Civil(y, 1, d)) == Calendar.DashJoin(dd, "01", yy);
    assert dd + "-" + "01" + "-" == prefix;
  }

  /** Reference 6 January: 4 days left, withdrawal on 05-01 already reached, so CRITICO. */
  lemma ExampleCritico(p: Product, y: int)
    requires p.customerData == CustomerData(Calendar.Midnight(Calendar.Civil(y, 1, 10)), Some(5))
    ensures Calcular(p, Calendar.Midnight(Calendar.Civil(y, 1, 6)))
         == Calculado(4, "05-01-" + Decimal.IntToString(y), "10-01-" + Decimal.IntToString(y), Critico)
  {
    var fv := p.customerData.fechaVencimiento;
    var hoy := Calendar.Midnight(Calendar.Civil(y, 1, 6));
    var retiro := Calendar.Midnight(Calendar.Civil(y, 1, 5));
    var n := Calendar.DaysFromCivil(Calendar.Civil(y, 1, 5));
    assert fv == (n + 5) * Calendar.MsPerDay && hoy == (n + 1) * Calendar.MsPerDay && retiro == n * Calendar.MsPerDay;
    assert DiasRestantes(fv, hoy) == 4;
    assert FechaRetiro(fv, LeadDays(p.customerData)) == retiro;
    assert EstadoOf(p.customerData, hoy) == Critico;
    Calendar.FormatDateWithinDay(Calendar.Civil(y, 1, 5), retiro);
    Calendar.FormatDateWithinDay(Calendar.Civil(y, 1, 10), fv);
    JanuaryText(y, 5, "05-01-");
    JanuaryText(y, 10, "10-01-");
  }

  /** Reference 12 January: -2 days left, so VENCIDO. */
  lemma ExampleVencido(p: Product, y: int)
    requires p.customerData == CustomerData(Calendar.Midnight(Calendar.Civil(y, 1, 10)), Some(5))
    ensures Calcular(p, Calendar.Midnight(Calendar.Civil(y, 1, 12))).diasRestantes == -2
    ensures Calcular(p, Calendar.Midnight(Calendar.Civil(y, 1, 12))).estado == Vencido
  {
  }

  /** Reference 1 January: 9 days left, withdrawal not reached: NORMAL, in neither bucket, row `A1;false`. */
  lemma ExampleNormal(p: Product, y: int)
    requires p.id == "A1"
    requires p.customerData == CustomerData(Calendar.Midnight(Calendar.Civil(y, 1, 10)), Some(5))
    ensures var hoy := Calendar.Midnight(Calendar.Civil(y, 1, 1));
      && DiasRestantes(p.customerData.fechaVencimiento, hoy) == 9
      && EstadoOf(p.customerData, hoy) == Normal
      && Bucket([p], hoy, Critico) == [] && Bucket([p], hoy, Vencido) == []
      && FlagRows([p], Bucket([p], hoy, Critico), Bucket([p], hoy, Vencido)) == ["A1;false"]
  {
    var hoy := Calendar.Midnight(Calendar.Civil(y, 1, 1));
    var n := Calendar.DaysFromCivil(Calendar.Civil(y, 1, 1));
    assert p.customerData.fechaVencimiento == (n + 9) * Calendar.MsPerDay && hoy == n * Calendar.MsPerDay;
    assert DiasRestantes(p.customerData.fechaVencimiento, hoy) == 9;
    assert EstadoOf(p.customerData, hoy) == Normal;
    assert [] + [p] == [p];
    BucketSnoc([], p, hoy, Critico);
    BucketSnoc([], p, hoy, Vencido);
    assert Bucket([p], hoy, Critico) == [] && Bucket([p], hoy, Vencido) == [];
    assert !Flagged(p, [], []);
    assert "A1" + ";" + "false" == "A1;false";
    assert FlagRows([p], [], []) == ["A1;false"];
  }

  // ---------------------------------------------------------------------------
  // calcularProductos

  /** A bucket of a list grown by one product gains that product's enriched copy iff its status is e. */
  lemma BucketSnoc(ps: seq<Product>, p: Product, hoy: int, e: Estado)
    ensures Bucket(ps + [p], hoy, e)
         == Bucket(ps, hoy, e) + (if EstadoOf(p.customerData, hoy) == e then [Enrich(p, hoy)] else [])
  {
    FilterSnoc(ps, p, HasEstado(hoy, e), EnrichAt(hoy));
  }

  /**
    The first half of the forEach callback: the day count, the withdrawal instant
    and the enriched copy of one product.
   */
  method CalcularProducto(producto: Product, hoy: int)
    returns (productoCalculado: Product, diasRestantes: int, fechaRetiro: int)
    ensures diasRestantes == DiasRestantes(producto.customerData.fechaVencimiento, hoy)
    ensures fechaRetiro == FechaRetiro(producto.customerData.fechaVencimiento, LeadDays(producto.customerData))
    ensures productoCalculado == Enrich(producto, hoy)
  {
    var fechaVencimiento := producto.customerData.fechaVencimiento;
    var diasRetiro := LeadDays(producto.customerData);
    diasRestantes := (fechaVencimiento - hoy) / Calendar.MsPerDay;
    assert diasRestantes == DiasRestantes(fechaVencimiento, hoy);
    fechaRetiro := fechaVencimiento;
    fechaRetiro := Calendar.AddDays(fechaRetiro, -diasRetiro);
    assert fechaRetiro == FechaRetiro(fechaVencimiento, diasRetiro);

    var estado;
    if diasRestantes < 0 {
      estado := Vencido;
    } else if hoy >= fechaRetiro {
      estado := Critico;
    } else {
      estado := Normal;
    }
    assert estado == EstadoOf(producto.customerData, hoy);

    productoCalculado := producto.(calculado := Some(Calculado(
      diasRestantes,
      Calendar.FormatDate(fechaRetiro),
      Calendar.FormatDate(fechaVencimiento),
      estado)));
  }

  /**
    The forEach callback: computes the calculado record of one product and pushes
    the enriched copy onto vencidos or porVencer according to its status.
   */
  method ClasificarProducto(producto: Product, hoy: int, porVencer0: seq<Product>, vencidos0: seq<Product>)
    returns (porVencer: seq<Product>, vencidos: seq<Product>)
    ensures porVencer == porVencer0 + (if EstadoOf(producto.customerData, hoy) == Critico then [Enrich(producto, hoy)] else [])
    ensures vencidos == vencidos0 + (if EstadoOf(producto.customerData, hoy) == Vencido then [Enrich(producto, hoy)] else [])
  {
    porVencer, vencidos := porVencer0, vencidos0;
    var productoCalculado, diasRestantes, fechaRetiro := CalcularProducto(producto, hoy);
    if diasRestantes < 0 {
      vencidos := vencidos + [productoCalculado];
    } else if hoy >= fechaRetiro {
      porVencer := porVencer + [productoCalculado];
    }
  }

  method CalcularProductos(productos: seq<Product>, hoy: int)
    returns (porVencer: seq<Product>, vencidos: seq<Product>, todosConFlagBase64: string)
    ensures porVencer == Bucket(productos, hoy, Critico)
    ensures vencidos == Bucket(productos, hoy, Vencido)
    ensures todosConFlagBase64 == FlagSummary(productos, porVencer, vencidos)
  {
    porVencer := [];
    vencidos := [];
    var i := 0;
    while i < |productos|
      invariant 0 <= i <= |productos|
      invariant porVencer == Bucket(productos[..i], hoy, Critico)
      invariant vencidos == Bucket(productos[..i], hoy, Vencido)
    {
      var producto := productos[i];
      porVencer, vencidos := ClasificarProducto(producto, hoy, porVencer, vencidos);
      assert productos[..i + 1] == productos[..i] + [producto];
      BucketSnoc(productos[..i], producto, hoy, Critico);
      BucketSnoc(productos[..i], producto, hoy, Vencido);
      i := i + 1;
    }
    assert productos[..i] == productos;

    var filas := JoinLines(FlagRows(productos, porVencer, vencidos));
    var csvTexto := FlagHeader + "\n" + filas;
    todosConFlagBase64 := Base64.Encode(Utf8.Encode(csvTexto));
  }
}
