/**
 * The portal home page (portal/views.py): the dashboard each role gets and the
 * selections it fills it with.  `agora` is the current local instant and the
 * local date is its day; the rows of each table are parameters.
 */
module PortalViews {
  import opened Wrappers
  import opened Clock
  import opened Ordering
  import opened Condominios
  import opened AccountsModels
  import opened ReservasModels
  import opened ReservasViews
  import FinanceiroModels
  import FinanceiroViews
  import opened AssembleiasModels
  import opened AssembleiasViews

  // ---- Reservation predicates shared with the admin dashboard ----

  /** "In use now": not cancelled and `inicio <= agora < fim`. */
  predicate InUseNow(b: Reserva, agora: int) {
    Active(b) && b.inicio <= agora && agora < b.fim
  }

  /** Not cancelled and starting on the local day `hoje` (`inicio__date=hoje`). */
  predicate StartsOn(b: Reserva, hoje: int) {
    Active(b) && DayOf(b.inicio) == hoje
  }

  /** The manager's "upcoming": from today on, not cancelled, and not in use now. */
  predicate Upcoming(b: Reserva, agora: int) {
    DayOf(b.inicio) >= DayOf(agora) && Active(b) && !(b.inicio <= agora && b.fim > agora)
  }

  /** The resident's own bookings that have not ended and are not cancelled. */
  predicate Mine(b: Reserva, user: User, agora: int) {
    b.morador == user.id && b.fim > agora && Active(b)
  }

  function ByFim(b: Reserva): int {
    b.fim
  }

  function ByInicio(b: Reserva): int {
    b.inicio
  }

  // ---- Charge predicates shared with the admin dashboard ----

  /** Unpaid and due before `hoje`. */
  predicate Overdue(l: FinanceiroModels.Lancamento, hoje: int) {
    l.pagoEm.None? && l.vencimento < hoje
  }

  /** Unpaid and due on `hoje` or later. */
  predicate DueLater(l: FinanceiroModels.Lancamento, hoje: int) {
    l.pagoEm.None? && l.vencimento >= hoje
  }

  predicate Unpaid(l: FinanceiroModels.Lancamento) {
    l.pagoEm.None?
  }

  /**
   * The overdue and the pending counts split the unpaid charges, and each
   * agrees with the charge's own status on the same day.
   */
  lemma UnpaidSplit(charges: seq<FinanceiroModels.Lancamento>, hoje: int)
    ensures Count(charges, (l: FinanceiroModels.Lancamento) => Overdue(l, hoje))
      + Count(charges, (l: FinanceiroModels.Lancamento) => DueLater(l, hoje))
      == Count(charges, Unpaid)
    ensures forall l :: Overdue(l, hoje) <==> FinanceiroModels.Status(l, hoje) == FinanceiroModels.Vencido
    ensures forall l :: DueLater(l, hoje) <==> FinanceiroModels.Status(l, hoje) == FinanceiroModels.Pendente
    ensures forall l :: !(Overdue(l, hoje) && DueLater(l, hoje))
  {
    CountSplit(charges, (l: FinanceiroModels.Lancamento) => Overdue(l, hoje),
      (l: FinanceiroModels.Lancamento) => DueLater(l, hoje), Unpaid);
  }

  // ---- Role dispatch ----

  datatype Dashboard = GestorDashboard | PorteiroDashboard | MoradorDashboard

  /** `role == "GESTOR"`, then `role == "PORTEIRO"`, and the resident's page for anything else. */
  function DashboardFor(role: string): Dashboard {
    if role == "GESTOR" then GestorDashboard
    else if role == "PORTEIRO" then PorteiroDashboard
    else MoradorDashboard
  }

  /**
   * Each of the three roles gets its own dashboard, and a role that names no
   * choice (empty, or any other text) is served as a resident.
   */
  lemma DispatchByRole(role: string)
    ensures DashboardFor(role) == match RoleFromValue(role)
      case Some(Gestor) => GestorDashboard
      case Some(Porteiro) => PorteiroDashboard
      case _ => MoradorDashboard
    ensures RoleFromValue(role).None? ==> DashboardFor(role) == DashboardFor(RoleValue(DefaultRole))
  {
  }

  // ---- The selections ----

  /** An `Aviso` row: only its key and creation instant matter here. */
  datatype Aviso = Aviso(id: Id, criadoEm: int)

  function ByCriadoEmDesc(a: Aviso): int {
    -a.criadoEm
  }

  predicate AnyAviso(a: Aviso) {
    true
  }

  /** `Aviso.objects.all()[:6]` under the model's `-criado_em` ordering: the six newest. */
  function AvisosRecentes(avisos: seq<Aviso>): (r: seq<Aviso>)
    ensures |r| == if |avisos| <= 6 then |avisos| else 6
    ensures forall a :: a in r ==> a in avisos
    ensures forall i, j :: 0 <= i < j < |r| ==> r[i].criadoEm >= r[j].criadoEm
    ensures forall i, a :: 0 <= i < |r| && a in avisos && a !in r ==> r[i].criadoEm >= a.criadoEm
  {
    var r := Select(avisos, AnyAviso, ByCriadoEmDesc, 6);
    assert |r| == if |avisos| <= 6 then |avisos| else 6 by {
      FilterAll(avisos, AnyAviso);
    }
    r
  }

  const EmUsoLimit: nat := 20

  /** The manager's "in use now": at most 20, those ending first, ordered by end. */
  function EmUsoAgora(rows: seq<Reserva>, agora: int): (r: seq<Reserva>)
    ensures |r| <= EmUsoLimit
    ensures |r| == if Count(rows, (b: Reserva) => InUseNow(b, agora)) <= EmUsoLimit
      then Count(rows, (b: Reserva) => InUseNow(b, agora)) else EmUsoLimit
    ensures forall b :: b in r ==> b in rows && InUseNow(b, agora)
    ensures Count(rows, (b: Reserva) => InUseNow(b, agora)) <= EmUsoLimit ==>
      forall b :: b in r <==> b in rows && InUseNow(b, agora)
    ensures forall i, j :: 0 <= i < j < |r| ==> r[i].fim <= r[j].fim
    ensures forall i, b :: 0 <= i < |r| && b in rows && InUseNow(b, agora) && b !in r ==> r[i].fim <= b.fim
  {
    Select(rows, (b: Reserva) => InUseNow(b, agora), ByFim, EmUsoLimit)
  }

  /** The manager's "upcoming": at most 20, those starting first, ordered by start. */
  function ReservasProximas(rows: seq<Reserva>, agora: int): (r: seq<Reserva>)
    ensures |r| <= EmUsoLimit
    ensures |r| == if Count(rows, (b: Reserva) => Upcoming(b, agora)) <= EmUsoLimit
      then Count(rows, (b: Reserva) => Upcoming(b, agora)) else EmUsoLimit
    ensures forall b :: b in r ==> b in rows && Upcoming(b, agora)
    ensures Count(rows, (b: Reserva) => Upcoming(b, agora)) <= EmUsoLimit ==>
      forall b :: b in r <==> b in rows && Upcoming(b, agora)
    ensures forall i, j :: 0 <= i < j < |r| ==> r[i].inicio <= r[j].inicio
    ensures forall i, b :: 0 <= i < |r| && b in rows && Upcoming(b, agora) && b !in r ==> r[i].inicio <= b.inicio
  {
    Select(rows, (b: Reserva) => Upcoming(b, agora), ByInicio, EmUsoLimit)
  }

  /**
   * "Upcoming" never repeats a booking shown as in use, and together they
   * cover every active booking that starts today or later.
   */
  lemma UpcomingDisjointFromInUse(b: Reserva, agora: int)
    ensures !(InUseNow(b, agora) && Upcoming(b, agora))
    ensures Active(b) && DayOf(b.inicio) >= DayOf(agora) ==> InUseNow(b, agora) || Upcoming(b, agora)
    ensures forall rows :: !(b in EmUsoAgora(rows, agora) && b in ReservasProximas(rows, agora))
  {
  }

  /** "Upcoming" also keeps a booking of today that has already ended. */
  lemma UpcomingKeepsEndedToday()
    ensures var b := Reserva(Some(1), 1, 1, 8 * 60, 9 * 60, Aprovada, false);
      Upcoming(b, 10 * 60) && b.fim <= 10 * 60
  {
  }

  /** The porter's "today": every active booking that starts today, by start, with no limit. */
  function ReservasHoje(rows: seq<Reserva>, agora: int): (r: seq<Reserva>)
    ensures forall b :: b in r <==> b in rows && StartsOn(b, DayOf(agora))
    ensures multiset(r) == multiset(Filter(rows, (b: Reserva) => StartsOn(b, DayOf(agora))))
    ensures forall i, j :: 0 <= i < j < |r| ==> r[i].inicio <= r[j].inicio
  {
    var f := Filter(rows, (b: Reserva) => StartsOn(b, DayOf(agora)));
    SortOn(f, ByInicio)
  }

  const MinhasLimit: nat := 10

  /** The resident's "my bookings": at most 10 of their own active, unfinished bookings, the first to start. */
  function Minhas(rows: seq<Reserva>, user: User, agora: int): (r: seq<Reserva>)
    ensures |r| <= MinhasLimit
    ensures |r| == if Count(rows, (b: Reserva) => Mine(b, user, agora)) <= MinhasLimit
      then Count(rows, (b: Reserva) => Mine(b, user, agora)) else MinhasLimit
    ensures forall b :: b in r ==> b in rows && Mine(b, user, agora)
    ensures Count(rows, (b: Reserva) => Mine(b, user, agora)) <= MinhasLimit ==>
      forall b :: b in r <==> b in rows && Mine(b, user, agora)
    ensures forall i, j :: 0 <= i < j < |r| ==> r[i].inicio <= r[j].inicio
    ensures forall i, b :: 0 <= i < |r| && b in rows && Mine(b, user, agora) && b !in r ==> r[i].inicio <= b.inicio
  {
    Select(rows, (b: Reserva) => Mine(b, user, agora), ByInicio, MinhasLimit)
  }

  function ByVencimentoDesc(l: FinanceiroModels.Lancamento): int {
    -l.vencimento
  }

  /** "My charges": at most 10 charges visible to the user, the latest due first. */
  function MeusLancamentos(charges: seq<FinanceiroModels.Lancamento>, units: seq<Unidade>, user: User)
    : (r: seq<FinanceiroModels.Lancamento>)
    ensures |r| <= 10
    ensures |r| == if |FinanceiroViews.VisibleCharges(charges, units, user.id)| <= 10
      then |FinanceiroViews.VisibleCharges(charges, units, user.id)| else 10
    ensures forall l :: l in r ==> l in charges && FinanceiroViews.Visible(l, units, user.id)
    ensures |FinanceiroViews.VisibleCharges(charges, units, user.id)| <= 10 ==>
      forall l :: l in r <==> l in charges && FinanceiroViews.Visible(l, units, user.id)
    ensures forall i, j :: 0 <= i < j < |r| ==> r[i].vencimento >= r[j].vencimento
    ensures forall i, l :: 0 <= i < |r| && l in charges && FinanceiroViews.Visible(l, units, user.id) && l !in r ==>
      r[i].vencimento >= l.vencimento
  {
    var r := Select(charges, (l: FinanceiroModels.Lancamento) => FinanceiroViews.Visible(l, units, user.id),
      ByVencimentoDesc, 10);
    FilterSame(charges, (l: FinanceiroModels.Lancamento) => FinanceiroViews.Visible(l, units, user.id),
      (l: FinanceiroModels.Lancamento) => FinanceiroViews.Visible(l, units, user.id));
    r
  }

  predicate UpcomingIn(a: Assembleia, c: Id, agora: int) {
    a.quando >= agora && a.condominio == Some(c)
  }

  /** The resident's next assemblies: at most 6 of their condominium's from `agora` on, none without one. */
  function AssembleiasProximas(asms: seq<Assembleia>, cond: CondLookup, agora: int): (r: seq<Assembleia>)
    requires !cond.CondLookupFails?
    ensures |r| <= 6
    ensures cond.NoCond? ==> r == []
    ensures cond.Cond? ==> forall a :: a in r ==> a in asms && a.quando >= agora && a.condominio == Some(cond.id)
    ensures cond.Cond? && Count(asms, (a: Assembleia) => UpcomingIn(a, cond.id, agora)) <= 6 ==>
      forall a :: a in r <==> a in asms && UpcomingIn(a, cond.id, agora)
    ensures cond.Cond? && Count(asms, (a: Assembleia) => UpcomingIn(a, cond.id, agora)) > 6 ==> |r| == 6
    ensures cond.Cond? ==> forall i, a :: 0 <= i < |r| && a in asms && UpcomingIn(a, cond.id, agora) && a !in r ==>
      r[i].quando <= a.quando
    ensures forall i, j :: 0 <= i < j < |r| ==> r[i].quando <= r[j].quando
  {
    match cond
    case NoCond => []
    case Cond(c) =>
      Select(asms, (a: Assembleia) => UpcomingIn(a, c, agora), ByQuando, 6)
  }

  predicate NotStarted(b: Reserva, agora: int) {
    b.inicio > agora
  }

  function IdOf(b: Reserva): Option<Id> {
    b.id
  }

  /** `[r.id for r in minhas if r.inicio > agora]`. */
  function CancelaveisIds(minhas: seq<Reserva>, agora: int): (r: seq<Option<Id>>)
    ensures |r| <= |minhas|
    ensures forall k :: k in r ==> exists b :: b in minhas && b.id == k && b.inicio > agora
    ensures forall b :: b in minhas && b.inicio > agora ==> b.id in r
  {
    var started := Filter(minhas, (b: Reserva) => NotStarted(b, agora));
    var r := Map(started, IdOf);
    forall k | k in r ensures exists b :: b in minhas && b.id == k && b.inicio > agora {
      var i :| 0 <= i < |r| && r[i] == k;
      assert started[i] in started;
    }
    forall b | b in minhas && b.inicio > agora ensures b.id in r {
      var i :| 0 <= i < |started| && started[i] == b;
      assert r[i] == b.id;
    }
    r
  }

  /** With distinct keys, a key of the rows finds its own row. */
  lemma {:induction false} FindReservaUnique(rows: seq<Reserva>, b: Reserva)
    requires DistinctKeys(rows) && b in rows && b.id.Some?
    ensures FindReserva(rows, b.id.value) == Some(b)
  {
    if rows[0] != b {
      var i :| 0 <= i < |rows| && rows[i] == b;
      assert rows[0].id != rows[i].id;
      assert rows[1..][i - 1] == b;
      assert DistinctKeys(rows[1..]);
      FindReservaUnique(rows[1..], b);
    }
  }

  /**
   * A booking of "my bookings" gets a cancel button exactly when
   * `cancelar_reserva` by the same resident at the same instant goes
   * through; one without it is in use right now.
   */
  lemma CancelaveisMatchCancel(rows: seq<Reserva>, user: User, agora: int, b: Reserva)
    requires DistinctKeys(rows)
    requires b in Minhas(rows, user, agora) && b.id.Some?
    ensures b.id in CancelaveisIds(Minhas(rows, user, agora), agora) <==>
      CancelDecision(rows, user, true, b.id.value, agora).CancelDone?
    ensures b.id !in CancelaveisIds(Minhas(rows, user, agora), agora) ==> InUseNow(b, agora)
  {
    CancelButtonsMatchCancel(rows, user, agora, Minhas(rows, user, agora), b);
  }

  /** `CancelaveisMatchCancel` for any list of the user's own unfinished bookings. */
  lemma CancelButtonsMatchCancel(rows: seq<Reserva>, user: User, agora: int, minhas: seq<Reserva>, b: Reserva)
    requires DistinctKeys(rows)
    requires forall c :: c in minhas ==> c in rows && Mine(c, user, agora)
    requires b in minhas && b.id.Some?
    ensures b.id in CancelaveisIds(minhas, agora) <==> CancelDecision(rows, user, true, b.id.value, agora).CancelDone?
    ensures b.id !in CancelaveisIds(minhas, agora) ==> InUseNow(b, agora)
  {
    FindReservaUnique(rows, b);
    if b.id in CancelaveisIds(minhas, agora) {
      var c :| c in minhas && c.id == b.id && c.inicio > agora;
      FindReservaUnique(rows, c);
    }
  }

  // ---- The page ----

  datatype Home =
    | GestorHome(avisos: seq<Aviso>, inadimplentes: nat, pendentes: nat, areas: seq<Area>,
                 emUsoAgora: seq<Reserva>, reservasProximas: seq<Reserva>)
    | PorteiroHome(avisos: seq<Aviso>, reservasHoje: seq<Reserva>, areas: seq<Area>)
    | MoradorHome(avisos: seq<Aviso>, minhasReservas: seq<Reserva>,
                  meusLancamentos: seq<FinanceiroModels.Lancamento>,
                  assembleiasProximas: seq<Assembleia>, cancelaveisIds: seq<Option<Id>>)
    | HomeFails  // the condominium lookup raised

  /**
   * `home`: fill the context entry by entry for the user's dashboard.  The
   * resident's page fails when the user lives in more than one unit.
   */
  method HomePage(user: User, avisos: seq<Aviso>, areas: seq<Area>, rows: seq<Reserva>,
                  charges: seq<FinanceiroModels.Lancamento>, units: seq<Unidade>,
                  asms: seq<Assembleia>, agora: int)
    returns (h: Home)
    ensures h.GestorHome? <==> DashboardFor(user.role) == GestorDashboard
    ensures h.PorteiroHome? <==> DashboardFor(user.role) == PorteiroDashboard
    ensures h.HomeFails? <==>
      (DashboardFor(user.role) == MoradorDashboard && CondominioDoMorador(Authenticated(user), units).CondLookupFails?)
    ensures !h.HomeFails? ==> h.avisos == AvisosRecentes(avisos)
    ensures h.GestorHome? ==>
      h.inadimplentes + h.pendentes == Count(charges, Unpaid)
      && h.inadimplentes == Count(charges, (l: FinanceiroModels.Lancamento) => Overdue(l, DayOf(agora)))
      && h.areas == Take(areas, 12)
      && h.emUsoAgora == EmUsoAgora(rows, agora) && h.reservasProximas == ReservasProximas(rows, agora)
    ensures h.PorteiroHome? ==> h.reservasHoje == ReservasHoje(rows, agora) && h.areas == Take(areas, 12)
    ensures h.MoradorHome? ==>
      h.minhasReservas == Minhas(rows, user, agora)
      && h.meusLancamentos == MeusLancamentos(charges, units, user)
      && h.assembleiasProximas == AssembleiasProximas(asms, CondominioDoMorador(Authenticated(user), units), agora)
      && h.cancelaveisIds == CancelaveisIds(h.minhasReservas, agora)
  {
    var hoje := DayOf(agora);
    var avisosCtx := AvisosRecentes(avisos);
    var role := user.role;
    if role == "GESTOR" {
      UnpaidSplit(charges, hoje);
      var inadimplentes := Count(charges, (l: FinanceiroModels.Lancamento) => Overdue(l, hoje));
      var pendentes := Count(charges, (l: FinanceiroModels.Lancamento) => DueLater(l, hoje));
      h := GestorHome(avisosCtx, inadimplentes, pendentes, Take(areas, 12),
        EmUsoAgora(rows, agora), ReservasProximas(rows, agora));
      return;
    }
    if role == "PORTEIRO" {
      h := PorteiroHome(avisosCtx, ReservasHoje(rows, agora), Take(areas, 12));
      return;
    }
    var minhas := Minhas(rows, user, agora);
    var lancamentos := MeusLancamentos(charges, units, user);
    var cond := CondominioDoMorador(Authenticated(user), units);
    if cond.CondLookupFails? {
      h := HomeFails;
      return;
    }
    var proximas := AssembleiasProximas(asms, cond, agora);
    h := MoradorHome(avisosCtx, minhas, lancamentos, proximas, CancelaveisIds(minhas, agora));
  }
}
