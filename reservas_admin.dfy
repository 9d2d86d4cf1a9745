/**
 * The admin screens of areas and reservations (reservas/admin.py): the list
 * columns of an area, the status badge colour and the two bulk actions.
 */
module ReservasAdmin {
  import opened Wrappers
  import opened Clock
  import opened Text
  import Ordering
  import AccountsModels
  import opened Condominios
  import opened ReservasModels
  import opened ReservasViews

  /** `t.strftime("%H:%M")`. */
  function HhMm(t: TimeOfDay): (s: string)
    ensures |s| == 5 && s[2] == ':'
  {
    Pad2(t / 60) + ":" + Pad2(t % 60)
  }

  /** Reads an `HH:MM` text back as minutes since midnight. */
  function ReadHhMm(s: string): int
    requires |s| == 5 && IsDigit(s[0]) && IsDigit(s[1]) && IsDigit(s[3]) && IsDigit(s[4])
  {
    (DigitValue(s[0]) * 10 + DigitValue(s[1])) * 60 + DigitValue(s[3]) * 10 + DigitValue(s[4])
  }

  lemma HhMmRoundTrip(t: TimeOfDay)
    ensures ReadHhMm(HhMm(t)) == t
  {
    var s := HhMm(t);
    assert s[..2] == Pad2(t / 60) && s[3..] == Pad2(t % 60);
  }

  /** The "Janela" column: the opening hours, with `00:00` and `23:59` for unset bounds. */
  function Janela(area: Area): string {
    var h1 := if area.horaInicio.Some? then HhMm(area.horaInicio.value) else "00:00";
    var h2 := if area.horaFim.Some? then HhMm(area.horaFim.value) else "23:59";
    h1 + "–" + h2
  }

  /** The column reads back as exactly the window the slot generator walks. */
  lemma JanelaShowsSlotWindow(area: Area)
    ensures var j := Janela(area);
      |j| == 11 && j[5] == '–' && j[..5] == HhMm(OpenFrom(area)) && j[6..] == HhMm(OpenUntil(area))
      && ReadHhMm(j[..5]) == OpenFrom(area) && ReadHhMm(j[6..]) == OpenUntil(area)
  {
    assert HhMm(0) == "00:00";
    assert HhMm(23 * 60 + 59) == "23:59";
    HhMmRoundTrip(OpenFrom(area));
    HhMmRoundTrip(OpenUntil(area));
  }

  const DiasSuffix: string := " (0=Seg..6=Dom)"

  /** The "Dias" column. */
  function DiasPermitidosStr(dias: seq<int>): string {
    if |dias| > 0 then Join(", ", Ordering.Map(dias, IntToString)) + DiasSuffix else "Todos"
  }

  /** "Todos" is shown exactly for an empty allow-list, which allows every weekday. */
  lemma DiasTodos(area: Area)
    ensures DiasPermitidosStr(area.diasPermitidos) == "Todos" <==> |area.diasPermitidos| == 0
    ensures DiasPermitidosStr(area.diasPermitidos) == "Todos" ==> forall day :: WeekdayAllowed(area, day)
  {
    var dias := area.diasPermitidos;
    if |dias| > 0 {
      var s := DiasPermitidosStr(dias);
      assert |s| >= |DiasSuffix|;
    }
  }

  /** A non-empty allow-list is shown as its days in order, comma separated, before the legend. */
  lemma DiasListed(dias: seq<int>)
    requires |dias| > 0
    ensures var s := DiasPermitidosStr(dias);
      |s| >= |DiasSuffix| && s[|s| - |DiasSuffix|..] == DiasSuffix
      && var pieces := Split(s[..|s| - |DiasSuffix|], ',');
      |pieces| == |dias| && pieces[0] == IntToString(dias[0])
      && forall i :: 1 <= i < |dias| ==> pieces[i] == " " + IntToString(dias[i])
  {
    var parts := Ordering.Map(dias, IntToString);
    forall i | 0 <= i < |parts| ensures ',' !in parts[i] {
      NoCommaInNumber(dias[i]);
    }
    SplitJoin(parts);
    var s := DiasPermitidosStr(dias);
    assert s[..|s| - |DiasSuffix|] == Join(", ", parts);
  }

  /** The "Datas bloqueadas" column. */
  function BloqueiosQtd(area: Area): (n: nat)
    ensures n == 0 ==> forall day :: !DayBlocked(area, day)
    ensures n == 0 <==> area.datasBloqueadas.None? || area.datasBloqueadas.value == []
    ensures area.datasBloqueadas.Some? ==> n == |area.datasBloqueadas.value|
    ensures area.datasBloqueadas.None? ==> n == 0
  {
    |area.datasBloqueadas.GetOr([])|
  }

  /** `STATUS_COLORS`. */
  const StatusColors: map<string, string> :=
    map["APROVADA" := "#16a34a", "PENDENTE" := "#f59e0b", "CANCELADA" := "#64748b"]

  const BadgeFallback: string := "#94a3b8"

  /** The badge colour of a stored status value. */
  function BadgeColor(status: string): (c: string)
    ensures status !in StatusColors ==> c == BadgeFallback
  {
    if status in StatusColors then StatusColors[status] else BadgeFallback
  }

  /** Each status has its own colour, none of them the fallback. */
  lemma BadgeColors(s: Status)
    ensures BadgeColor(StatusValue(s)) ==
      match s
      case Aprovada => "#16a34a"
      case Pendente => "#f59e0b"
      case Cancelada => "#64748b"
    ensures BadgeColor(StatusValue(s)) != BadgeFallback
  {
  }

  /**
   * The "Marcar como APROVADA" action: every selected booking becomes APROVADA,
   * a cancelled one included; every other row and field stays as it was.
   */
  method AprovarReservas(t: ReservaTable, selected: set<Id>) returns (updated: nat)
    requires t.Valid()
    modifies t
    ensures t.Valid()
    ensures t.rows == WithStatus(old(t.rows), selected, Aprovada)
    ensures updated == |selected * Keys(old(t.rows))|
    ensures selected <= Keys(old(t.rows)) ==> updated == |selected|
  {
    CountSelectedIsSelection(t.rows, selected);
    assert selected <= Keys(t.rows) ==> selected * Keys(t.rows) == selected;
    updated := t.UpdateStatus(selected, Aprovada);
  }

  /**
   * The "Marcar como CANCELADA" action: no start-time or ownership check,
   * every selected booking becomes CANCELADA.
   */
  method CancelarReservas(t: ReservaTable, selected: set<Id>) returns (updated: nat)
    requires t.Valid()
    modifies t
    ensures t.Valid()
    ensures t.rows == WithStatus(old(t.rows), selected, Cancelada)
    ensures updated == |selected * Keys(old(t.rows))|
    ensures selected <= Keys(old(t.rows)) ==> updated == |selected|
    ensures EarlierShares(old(t.rows)) ==> EarlierShares(t.rows)
  {
    CountSelectedIsSelection(t.rows, selected);
    assert selected <= Keys(t.rows) ==> selected * Keys(t.rows) == selected;
    if EarlierShares(t.rows) {
      CancelKeepsEarlierShares(t.rows, selected);
    }
    updated := t.UpdateStatus(selected, Cancelada);
  }

  /** The admin cancels bookings that the resident's own cancellation refuses because they started. */
  lemma AdminCancelIgnoresStart()
    ensures var rows := [Reserva(Some(1), 1, 1, 600, 660, Aprovada, false)];
      var owner := AccountsModels.User(1, "MORADOR", false);
      CancelDecision(rows, owner, true, 1, 630) == CancelAlreadyStarted
      && WithStatus(rows, {1}, Cancelada)[0].status == Cancelada
  {
    var rows := [Reserva(Some(1), 1, 1, 600, 660, Aprovada, false)];
    assert FindReserva(rows, 1) == Some(rows[0]);
  }
}
