/**
 * The admin dashboard tags (portal/templatetags/admin_dashboard.py): four KPI
 * counts, the short lists behind them and the debtor's display name.  `agora`
 * is the current local instant and the local date is its day.
 */
module AdminDashboard {
  import opened Wrappers
  import opened Clock
  import opened Ordering
  import opened Condominios
  import opened ReservasModels
  import opened FinanceiroModels
  import PortalViews

  // ---- KPI counts ----

  /** `kpi_em_uso_agora`. */
  function KpiEmUsoAgora(rows: seq<Reserva>, agora: int): (n: nat)
    ensures n <= |rows|
    ensures n == 0 <==> forall b :: b in rows ==> !PortalViews.InUseNow(b, agora)
  {
    var f := Filter(rows, (b: Reserva) => PortalViews.InUseNow(b, agora));
    assert |f| > 0 ==> f[0] in f;
    |f|
  }

  /** Not cancelled and starting on the local date of `agora`. */
  predicate StartsToday(b: Reserva, agora: int) {
    PortalViews.StartsOn(b, DayOf(agora))
  }

  /** `kpi_reservas_hoje`. */
  function KpiReservasHoje(rows: seq<Reserva>, agora: int): (n: nat)
    ensures n <= |rows|
    ensures n == 0 <==> forall b :: b in rows ==> !StartsToday(b, agora)
  {
    var f := Filter(rows, (b: Reserva) => StartsToday(b, agora));
    assert |f| > 0 ==> f[0] in f;
    |f|
  }

  /** `kpi_inadimplentes`. */
  function KpiInadimplentes(charges: seq<Lancamento>, agora: int): nat {
    Count(charges, (l: Lancamento) => PortalViews.Overdue(l, DayOf(agora)))
  }

  /** `kpi_pendentes`. */
  function KpiPendentes(charges: seq<Lancamento>, agora: int): nat {
    Count(charges, (l: Lancamento) => PortalViews.DueLater(l, DayOf(agora)))
  }

  /**
   * The overdue and the pending KPIs never count the same charge, they add up
   * to the unpaid charges, and they count exactly the charges whose status is
   * VENCIDO and PENDENTE on the same day.
   */
  lemma KpiChargesSplit(charges: seq<Lancamento>, agora: int)
    ensures KpiInadimplentes(charges, agora) + KpiPendentes(charges, agora) == Count(charges, PortalViews.Unpaid)
    ensures KpiInadimplentes(charges, agora) ==
      Count(charges, (l: Lancamento) => FinanceiroModels.Status(l, DayOf(agora)) == FinanceiroModels.Vencido)
    ensures KpiPendentes(charges, agora) ==
      Count(charges, (l: Lancamento) => FinanceiroModels.Status(l, DayOf(agora)) == FinanceiroModels.Pendente)
  {
    var hoje := DayOf(agora);
    PortalViews.UnpaidSplit(charges, hoje);
    FilterSame(charges, (l: Lancamento) => PortalViews.Overdue(l, hoje), (l: Lancamento) => FinanceiroModels.Status(l, hoje) == FinanceiroModels.Vencido);
    FilterSame(charges, (l: Lancamento) => PortalViews.DueLater(l, hoje), (l: Lancamento) => FinanceiroModels.Status(l, hoje) == FinanceiroModels.Pendente);
  }

  // ---- The short lists ----

  /** The "in use" list: the (at most) eight in-use bookings ending first, ordered by end. */
  function EmUso(rows: seq<Reserva>, agora: int): (r: seq<Reserva>)
    ensures |r| == if KpiEmUsoAgora(rows, agora) <= 8 then KpiEmUsoAgora(rows, agora) else 8
    ensures forall b :: b in r ==> b in rows && PortalViews.InUseNow(b, agora)
    ensures forall i, j :: 0 <= i < j < |r| ==> r[i].fim <= r[j].fim
    ensures forall i, b :: 0 <= i < |r| && b in rows && PortalViews.InUseNow(b, agora) && b !in r ==> r[i].fim <= b.fim
  {
    Select(rows, (b: Reserva) => PortalViews.InUseNow(b, agora), PortalViews.ByFim, 8)
  }

  /** The "today" list: the (at most) ten bookings of today starting first, ordered by start. */
  function ReservasHojeLista(rows: seq<Reserva>, agora: int): (r: seq<Reserva>)
    ensures |r| == if KpiReservasHoje(rows, agora) <= 10 then KpiReservasHoje(rows, agora) else 10
    ensures forall b :: b in r ==> b in rows && StartsToday(b, agora)
    ensures forall i, j :: 0 <= i < j < |r| ==> r[i].inicio <= r[j].inicio
    ensures forall i, b :: 0 <= i < |r| && b in rows && StartsToday(b, agora) && b !in r ==>
      r[i].inicio <= b.inicio
  {
    Select(rows, (b: Reserva) => StartsToday(b, agora), PortalViews.ByInicio, 10)
  }

  function ByVencimento(l: Lancamento): int {
    l.vencimento
  }

  /** The overdue list: the (at most) ten overdue charges due first, ordered by due day. */
  function InadimplentesLista(charges: seq<Lancamento>, agora: int): (r: seq<Lancamento>)
    ensures |r| == if KpiInadimplentes(charges, agora) <= 10 then KpiInadimplentes(charges, agora) else 10
    ensures forall l :: l in r ==> l in charges && PortalViews.Overdue(l, DayOf(agora))
    ensures forall i, j :: 0 <= i < j < |r| ==> r[i].vencimento <= r[j].vencimento
    ensures forall i, l :: 0 <= i < |r| && l in charges && PortalViews.Overdue(l, DayOf(agora)) && l !in r ==>
      r[i].vencimento <= l.vencimento
  {
    Select(charges, (l: Lancamento) => PortalViews.Overdue(l, DayOf(agora)), ByVencimento, 10)
  }

  /** The pending list: the (at most) ten pending charges due first, ordered by due day. */
  function PendentesLista(charges: seq<Lancamento>, agora: int): (r: seq<Lancamento>)
    ensures |r| == if KpiPendentes(charges, agora) <= 10 then KpiPendentes(charges, agora) else 10
    ensures forall l :: l in r ==> l in charges && PortalViews.DueLater(l, DayOf(agora))
    ensures forall i, j :: 0 <= i < j < |r| ==> r[i].vencimento <= r[j].vencimento
    ensures forall i, l :: 0 <= i < |r| && l in charges && PortalViews.DueLater(l, DayOf(agora)) && l !in r ==>
      r[i].vencimento <= l.vencimento
  {
    Select(charges, (l: Lancamento) => PortalViews.DueLater(l, DayOf(agora)), ByVencimento, 10)
  }

  /** No charge is on both lists, and every listed charge is unpaid. */
  lemma ChargeListsDisjoint(charges: seq<Lancamento>, agora: int, l: Lancamento)
    ensures !(l in InadimplentesLista(charges, agora) && l in PendentesLista(charges, agora))
    ensures l in InadimplentesLista(charges, agora) || l in PendentesLista(charges, agora) ==> l.pagoEm.None?
  {
  }

  // ---- The debtor's name ----

  const NoName: string := "—"

  /**
   * `nome_do_morador`: the direct target's name, else the name of the unit's
   * resident, else a dash; `nameOf` is `str` of a user.
   */
  function NomeDoMorador(l: Lancamento, units: seq<Unidade>, nameOf: Id -> string): string {
    if l.moradorAlvo.Some? then nameOf(l.moradorAlvo.value)
    else if l.unidade.Some? && ResidentOf(units, l.unidade.value).Some? then
      nameOf(ResidentOf(units, l.unidade.value).value)
    else NoName
  }

  /**
   * The direct target wins over the unit; the unit's resident is used only
   * without a target; the dash appears exactly when neither names anyone.
   */
  lemma NomeDoMoradorPriority(l: Lancamento, units: seq<Unidade>, nameOf: Id -> string)
    ensures l.moradorAlvo.Some? ==> NomeDoMorador(l, units, nameOf) == nameOf(l.moradorAlvo.value)
    ensures l.moradorAlvo.None? && l.unidade.Some? && ResidentOf(units, l.unidade.value).Some? ==>
      exists u :: u in units && u.id == l.unidade.value && u.morador.Some?
        && NomeDoMorador(l, units, nameOf) == nameOf(u.morador.value)
    ensures (forall k :: nameOf(k) != NoName) ==>
      (NomeDoMorador(l, units, nameOf) == NoName <==>
        l.moradorAlvo.None? && (l.unidade.None? || ResidentOf(units, l.unidade.value).None?))
  {
  }
}
