/**
 * The reservation views (reservas/views.py): the free-slot generator, the
 * detail page's date and permission, booking creation, cancellation and the
 * booking history.  The current local instant and date are parameters; a
 * parsed request value is `Some` when the text parsed and `None` otherwise.
 */
module ReservasViews {
  import opened Wrappers
  import opened Clock
  import opened Ordering
  import opened Condominios
  import opened AccountsModels
  import opened ReservasModels

  /** `SLOT_MINUTES`. */
  const SlotMinutes: int := 60

  /** A candidate slot `(inicio, fim)`. */
  datatype Slot = Slot(inicio: int, fim: int)

  /** `area.hora_inicio or time(0, 0)`. */
  function OpenFrom(area: Area): TimeOfDay {
    area.horaInicio.GetOr(0)
  }

  /** `area.hora_fim or time(23, 59)`. */
  function OpenUntil(area: Area): TimeOfDay {
    area.horaFim.GetOr(23 * 60 + 59)
  }

  /** The weekday and blocked-date rules of the day. */
  predicate DayOffered(area: Area, dia: int) {
    WeekdayAllowed(area, dia) && !DayBlocked(area, dia)
  }

  /** The k-th 60-minute step from the opening of the window. */
  function SlotAt(area: Area, dia: int, k: nat): (s: Slot)
    ensures s.fim == s.inicio + SlotMinutes
  {
    var inicio := At(dia, OpenFrom(area)) + SlotMinutes * k;
    Slot(inicio, inicio + SlotMinutes)
  }

  /** The slot is over already: the day is today and the slot ends by now. */
  predicate Elapsed(dia: int, s: Slot, now: int) {
    dia == DayOf(now) && s.fim <= now
  }

  /** No active reservation of the area overlaps the slot, whatever its sharing flag. */
  predicate Free(area: Area, rows: seq<Reserva>, s: Slot) {
    forall b :: b in rows && b.area == area.id && Active(b) ==> !Overlaps(b, s.inicio, s.fim)
  }

  /**
   * What the picker should offer: the k-th step of an open day, ending inside
   * the window, not over yet and free.
   */
  predicate OfferedAt(area: Area, dia: int, rows: seq<Reserva>, now: int, k: nat) {
    var s := SlotAt(area, dia, k);
    DayOffered(area, dia) && s.fim <= At(dia, OpenUntil(area)) && !Elapsed(dia, s, now) && Free(area, rows, s)
  }

  /** Slot `s` is one of the steps the picker should offer. */
  ghost predicate IsOffered(area: Area, dia: int, rows: seq<Reserva>, now: int, s: Slot) {
    exists k: nat :: s == SlotAt(area, dia, k) && OfferedAt(area, dia, rows, now, k)
  }

  /** Against the rows the view prefetches for the window, a conflict is exactly a slot that is not free. */
  lemma ConflictIffNotFree(area: Area, rows: seq<Reserva>, existentes: seq<Reserva>, dtIni: int, dtFim: int, s: Slot)
    requires forall b :: b in existentes <==> b in rows && b.area == area.id && b.inicio < dtFim && b.fim > dtIni && Active(b)
    requires dtIni <= s.inicio && s.fim <= dtFim
    ensures (exists b :: b in existentes && b.inicio < s.fim && b.fim > s.inicio) <==> !Free(area, rows, s)
  {
    if !Free(area, rows, s) {
      var b :| b in rows && b.area == area.id && Active(b) && Overlaps(b, s.inicio, s.fim);
      assert b in existentes;
    }
  }

  /** A slot that starts after every listed slot ends keeps the list ordered and bounded by its own end. */
  lemma AppendInOrder(slots: seq<Slot>, s: Slot, cursor: int)
    requires forall i, j :: 0 <= i < j < |slots| ==> slots[i].fim <= slots[j].inicio
    requires forall i :: 0 <= i < |slots| ==> slots[i].fim <= cursor
    requires cursor <= s.inicio <= s.fim
    ensures var t := slots + [s];
      (forall i, j :: 0 <= i < j < |t| ==> t[i].fim <= t[j].inicio)
      && (forall i :: 0 <= i < |t| ==> t[i].fim <= s.fim)
      && (forall x :: x in slots ==> x in t)
  {
  }

  /** The active reservations of the area that overlap the window `[dtIni, dtFim)`, fetched once. */
  function InWindow(area: Area, rows: seq<Reserva>, dtIni: int, dtFim: int): (r: seq<Reserva>)
    ensures forall b :: b in r <==> (b in rows && b.area == area.id && b.inicio < dtFim && b.fim > dtIni && Active(b))
  {
    Filter(rows, (b: Reserva) => b.area == area.id && b.inicio < dtFim && b.fim > dtIni && Active(b))
  }

  /** Step `n` of an open day, inside the window, is offered exactly when it is not over and has no conflict. */
  lemma StepOffered(area: Area, dia: int, rows: seq<Reserva>, now: int, existentes: seq<Reserva>, n: nat)
    requires forall b :: b in existentes <==>
      (b in rows && b.area == area.id && b.inicio < At(dia, OpenUntil(area)) && b.fim > At(dia, OpenFrom(area)) && Active(b))
    requires DayOffered(area, dia) && SlotAt(area, dia, n).fim <= At(dia, OpenUntil(area))
    ensures var s := SlotAt(area, dia, n);
      OfferedAt(area, dia, rows, now, n) <==>
        !Elapsed(dia, s, now) && !(exists b :: b in existentes && b.inicio < s.fim && b.fim > s.inicio)
  {
    ConflictIffNotFree(area, rows, existentes, At(dia, OpenFrom(area)), At(dia, OpenUntil(area)), SlotAt(area, dia, n));
  }

  /** `_slots_disponiveis(area, dia)` with the table `rows` and the local instant `now`. */
  method SlotsDisponiveis(area: Area, dia: int, rows: seq<Reserva>, now: int) returns (slots: seq<Slot>)
    ensures !DayOffered(area, dia) ==> slots == []
    ensures forall i :: 0 <= i < |slots| ==> IsOffered(area, dia, rows, now, slots[i])
    ensures forall k: nat :: OfferedAt(area, dia, rows, now, k) ==> SlotAt(area, dia, k) in slots
    ensures forall i, j :: 0 <= i < j < |slots| ==> slots[i].fim <= slots[j].inicio
  {
    if |area.diasPermitidos| > 0 && WeekdayOf(dia) !in area.diasPermitidos {
      return [];
    }
    if |BlockedList(area)| > 0 && IsoDay(dia) in BlockedList(area) {
      return [];
    }
    var dtIni := At(dia, OpenFrom(area));
    var dtFim := At(dia, OpenUntil(area));
    var existentes := InWindow(area, rows, dtIni, dtFim);
    slots := [];
    var cursor := dtIni;
    ghost var n: nat := 0;
    while cursor + SlotMinutes <= dtFim
      invariant DayOffered(area, dia)
      invariant cursor == dtIni + SlotMinutes * n
      invariant n == 0 || cursor <= dtFim
      invariant forall i :: 0 <= i < |slots| ==> IsOffered(area, dia, rows, now, slots[i])
      invariant forall k: nat :: k < n && OfferedAt(area, dia, rows, now, k) ==> SlotAt(area, dia, k) in slots
      invariant forall i, j :: 0 <= i < j < |slots| ==> slots[i].fim <= slots[j].inicio
      invariant forall i :: 0 <= i < |slots| ==> slots[i].fim <= cursor
      decreases dtFim - cursor
    {
      var slotInicio := cursor;
      var slotFim := cursor + SlotMinutes;
      assert Slot(slotInicio, slotFim) == SlotAt(area, dia, n);
      StepOffered(area, dia, rows, now, existentes, n);
      if dia == DayOf(now) && slotFim <= now {
        assert !OfferedAt(area, dia, rows, now, n);
        cursor := slotFim;
        n := n + 1;
        continue;
      }
      var conflito := exists b :: b in existentes && b.inicio < slotFim && b.fim > slotInicio;
      if !conflito {
        assert OfferedAt(area, dia, rows, now, n);
        assert IsOffered(area, dia, rows, now, Slot(slotInicio, slotFim));
        AppendInOrder(slots, Slot(slotInicio, slotFim), cursor);
        slots := slots + [Slot(slotInicio, slotFim)];
      } else {
        assert !OfferedAt(area, dia, rows, now, n);
      }
      cursor := slotFim;
      n := n + 1;
    }
  }

  /** The slot of an open day that ends inside the window lies inside that day's opening hours. */
  lemma SlotWithinDay(area: Area, dia: int, k: nat)
    requires SlotAt(area, dia, k).fim <= At(dia, OpenUntil(area))
    ensures var s := SlotAt(area, dia, k);
      DayOf(s.inicio) == dia && TimeOf(s.inicio) == OpenFrom(area) + SlotMinutes * k
      && DayOf(s.fim) == dia && TimeOf(s.fim) <= OpenUntil(area)
  {
    var s := SlotAt(area, dia, k);
    WithinDay(dia, s.inicio);
    WithinDay(dia, s.fim);
  }

  /** A reservation of `area` that books exactly slot `s`. */
  predicate Books(area: Area, r: Reserva, s: Slot) {
    r.area == area.id && r.inicio == s.inicio && r.fim == s.fim
  }

  /** A step that ends inside the window of an open day keeps every rule of `clean` but the overlap rule. */
  lemma SlotKeepsDayRules(area: Area, dia: int, rows: seq<Reserva>, k: nat, r: Reserva)
    requires DayOffered(area, dia) && SlotAt(area, dia, k).fim <= At(dia, OpenUntil(area))
    requires Books(area, r, SlotAt(area, dia, k))
    ensures forall reason :: reason != OverlapDenied ==> !Violates(area, r, rows, reason)
  {
    SlotWithinDay(area, dia, k);
  }

  /** Every slot the picker offers is one `clean` accepts against the same table. */
  lemma OfferedSlotPassesClean(area: Area, dia: int, rows: seq<Reserva>, now: int, k: nat, r: Reserva)
    requires OfferedAt(area, dia, rows, now, k)
    requires Books(area, r, SlotAt(area, dia, k))
    ensures Clean(area, r, rows) == Accepted
  {
    SlotKeepsDayRules(area, dia, rows, k, r);
    CleanOverlapPolicy(area, r, rows);
  }

  /**
   * The picker is stricter than the validator: a step of an open day covered
   * only by reservations that allow sharing is not offered, yet booking it is
   * accepted.
   */
  lemma SharedWindowHiddenButBookable(area: Area, dia: int, rows: seq<Reserva>, now: int, k: nat, r: Reserva, b: Reserva)
    requires DayOffered(area, dia) && SlotAt(area, dia, k).fim <= At(dia, OpenUntil(area))
    requires Books(area, r, SlotAt(area, dia, k))
    requires b in rows && b.area == area.id && Active(b) && Overlaps(b, r.inicio, r.fim)
    requires forall c :: c in rows && c.area == area.id && Active(c) && Overlaps(c, r.inicio, r.fim) ==> c.permiteCompartilhar
    ensures !OfferedAt(area, dia, rows, now, k)
    ensures Clean(area, r, rows) == Accepted
  {
    SlotKeepsDayRules(area, dia, rows, k, r);
    CleanOverlapPolicy(area, r, rows);
  }

  // ---- area_detail ----

  /** `get_object_or_404(AreaReservavel, pk=...)`: the first area with that key, if any. */
  function FindArea(areas: seq<Area>, id: Id): (r: Option<Area>)
    ensures r.Some? ==> r.value in areas && r.value.id == id
    ensures r.None? ==> forall a :: a in areas ==> a.id != id
  {
    if |areas| == 0 then None
    else if areas[0].id == id then Some(areas[0])
    else FindArea(areas[1..], id)
  }

  /** `_parse_date(text, default)`: the parsed date, or the default when the text does not parse. */
  function ParseDate(parsed: Option<int>, default: int): (d: int)
    ensures parsed.Some? ==> d == parsed.value
    ensures parsed.None? ==> d == default
  {
    parsed.GetOr(default)
  }

  /** `pode_reservar`: everyone but a porter may book. */
  predicate PodeReservar(user: User) {
    user.role != RoleValue(Porteiro)
  }

  datatype DetailPage = DetailPage(area: Area, dia: int, slots: seq<Slot>, isHoje: bool, podeReservar: bool)

  datatype DetailOutcome = DetailNotFound | Detail(page: DetailPage)

  /**
   * `area_detail`: `data` is the parse of the `data` parameter (`None` when it
   * is absent, empty or malformed, all of which show today).
   */
  method AreaDetail(areas: seq<Area>, areaId: Id, data: Option<int>, user: User, rows: seq<Reserva>, hoje: int, now: int)
    returns (o: DetailOutcome)
    requires DayOf(now) == hoje
    ensures o.DetailNotFound? <==> FindArea(areas, areaId).None?
    ensures o.Detail? ==>
      var p := o.page;
      p.area == FindArea(areas, areaId).value && p.dia == ParseDate(data, hoje) && p.isHoje == (p.dia == hoje)
      && p.podeReservar == PodeReservar(user)
      && (forall k: nat :: OfferedAt(p.area, p.dia, rows, now, k) ==> SlotAt(p.area, p.dia, k) in p.slots)
      && (forall s :: s in p.slots ==> IsOffered(p.area, p.dia, rows, now, s))
  {
    var found := FindArea(areas, areaId);
    if found.None? {
      return DetailNotFound;
    }
    var area := found.value;
    var dia := ParseDate(data, hoje);
    var slots := SlotsDisponiveis(area, dia, rows, now);
    o := Detail(DetailPage(area, dia, slots, dia == hoje, PodeReservar(user)));
  }

  // ---- agendar ----

  datatype AgendarOutcome =
    | PorteiroForbidden                          // 403
    | AgendarBadMethod                           // 400
    | AreaNotFound                               // 404
    | DatesInvalid(areaId: Id)                   // back to the area page
    | Refused(areaId: Id, day: int, reason: Rejection)  // back to the area page on that day
    | Confirmed(reserva: Reserva)                // saved, to the portal

  /** The booking `agendar` builds: approved at once, sharing left at its default. */
  function Candidate(area: Area, user: User, inicio: int, fim: int): (r: Reserva)
    ensures r.id.None? && r.area == area.id && r.morador == user.id
    ensures r.status == Aprovada && !r.permiteCompartilhar
  {
    NewReserva(area.id, user.id, inicio, fim).(status := Aprovada)
  }

  /** `agendar` on the table `rows`; `inicio`/`fim` are the `fromisoformat` results. */
  function AgendarDecision(user: User, isPost: bool, areas: seq<Area>, areaId: Id,
                           inicio: Option<int>, fim: Option<int>, rows: seq<Reserva>): AgendarOutcome
  {
    if user.role == RoleValue(Porteiro) then PorteiroForbidden
    else if !isPost then AgendarBadMethod
    else match FindArea(areas, areaId)
      case None => AreaNotFound
      case Some(area) =>
        if inicio.None? || fim.None? then DatesInvalid(area.id)
        else
          var r := Candidate(area, user, inicio.value, fim.value);
          match Clean(area, r, rows)
          case Rejected(reason) => Refused(area.id, DayOf(inicio.value), reason)
          case Accepted => Confirmed(r)
  }

  /** The porter is refused before any other check, and only the porter: the detail page's flag agrees. */
  lemma PorteiroRefusedFirst(user: User, isPost: bool, areas: seq<Area>, areaId: Id,
                              inicio: Option<int>, fim: Option<int>, rows: seq<Reserva>)
    ensures AgendarDecision(user, isPost, areas, areaId, inicio, fim, rows) == PorteiroForbidden <==> !PodeReservar(user)
  {
  }

  /**
   * A booking is confirmed exactly when the actor may book, the request is a
   * POST, the area exists, both instants parse and `clean` accepts; the saved
   * booking is approved, refuses sharing and belongs to the actor.
   */
  lemma AgendarConfirms(user: User, isPost: bool, areas: seq<Area>, areaId: Id,
                        inicio: Option<int>, fim: Option<int>, rows: seq<Reserva>)
    ensures var o := AgendarDecision(user, isPost, areas, areaId, inicio, fim, rows);
      o.Confirmed? <==>
        PodeReservar(user) && isPost && FindArea(areas, areaId).Some? && inicio.Some? && fim.Some?
        && Clean(FindArea(areas, areaId).value, Candidate(FindArea(areas, areaId).value, user, inicio.value, fim.value), rows) == Accepted
    ensures var o := AgendarDecision(user, isPost, areas, areaId, inicio, fim, rows);
      o.Confirmed? ==>
        o.reserva.status == Aprovada && !o.reserva.permiteCompartilhar && o.reserva.morador == user.id
        && o.reserva.area == areaId && o.reserva.inicio < o.reserva.fim && o.reserva.id.None?
    ensures var o := AgendarDecision(user, isPost, areas, areaId, inicio, fim, rows);
      o.Refused? ==> Clean(FindArea(areas, areaId).value, Candidate(FindArea(areas, areaId).value, user, inicio.value, fim.value), rows) == Rejected(o.reason)
  {
    var o := AgendarDecision(user, isPost, areas, areaId, inicio, fim, rows);
    if o.Confirmed? {
      var area := FindArea(areas, areaId).value;
      CleanVerdicts(area, o.reserva, rows, 0);
      assert !Violates(area, o.reserva, rows, InvalidRange);
    }
  }

  /** `agendar`: the row is saved only when the booking is confirmed. */
  method Agendar(t: ReservaTable, user: User, isPost: bool, areas: seq<Area>, areaId: Id,
                 inicio: Option<int>, fim: Option<int>) returns (o: AgendarOutcome)
    requires t.Valid()
    modifies t
    ensures t.Valid()
    ensures o == AgendarDecision(user, isPost, areas, areaId, inicio, fim, old(t.rows))
    ensures o.Confirmed? ==> t.rows == old(t.rows) + [o.reserva.(id := Some(old(t.nextId)))]
    ensures !o.Confirmed? ==> t.rows == old(t.rows)
    ensures EarlierShares(old(t.rows)) ==> EarlierShares(t.rows)
  {
    if user.role == RoleValue(Porteiro) {
      return PorteiroForbidden;
    }
    if !isPost {
      return AgendarBadMethod;
    }
    var found := FindArea(areas, areaId);
    if found.None? {
      return AreaNotFound;
    }
    var area := found.value;
    if inicio.None? || fim.None? {
      return DatesInvalid(area.id);
    }
    var r := Candidate(area, user, inicio.value, fim.value);
    var verdict := Clean(area, r, t.rows);
    if verdict.Rejected? {
      return Refused(area.id, DayOf(inicio.value), verdict.reason);
    }
    ghost var before := t.rows;
    if EarlierShares(before) {
      AcceptedSaveKeepsEarlierShares(area, r, before, t.nextId);
    }
    var saved := t.Insert(r);
    o := Confirmed(r);
  }

  // ---- cancelar_reserva ----

  datatype CancelOutcome =
    | CancelBadMethod       // 400
    | CancelNotFound        // 404
    | CancelForbidden       // 403
    | CancelAlreadyStarted  // refused, back to the portal
    | CancelDone(id: Id)    // status set to CANCELADA

  /** `get_object_or_404(Reserva, pk=...)`. */
  function FindReserva(rows: seq<Reserva>, id: Id): (r: Option<Reserva>)
    ensures r.Some? ==> r.value in rows && r.value.id == Some(id)
    ensures r.None? ==> forall b :: b in rows ==> b.id != Some(id)
  {
    if |rows| == 0 then None
    else if rows[0].id == Some(id) then Some(rows[0])
    else FindReserva(rows[1..], id)
  }

  /** `cancelar_reserva` by `user` at the local instant `now`. */
  function CancelDecision(rows: seq<Reserva>, user: User, isPost: bool, id: Id, now: int): CancelOutcome {
    if !isPost then CancelBadMethod
    else match FindReserva(rows, id)
      case None => CancelNotFound
      case Some(reserva) =>
        var isOwner := reserva.morador == user.id;
        var isGestor := user.role == RoleValue(Gestor);
        if !(isOwner || isGestor) then CancelForbidden
        else if reserva.inicio <= now then CancelAlreadyStarted
        else CancelDone(id)
  }

  /**
   * A cancellation goes through exactly for a POST on an existing booking, by
   * its owner or a manager, before it starts; the booking's current status
   * plays no part.
   */
  lemma CancelRules(rows: seq<Reserva>, user: User, isPost: bool, id: Id, now: int)
    ensures CancelDecision(rows, user, isPost, id, now).CancelDone? <==>
      isPost && FindReserva(rows, id).Some?
      && (FindReserva(rows, id).value.morador == user.id || user.role == RoleValue(Gestor))
      && FindReserva(rows, id).value.inicio > now
    ensures CancelDecision(rows, user, isPost, id, now) == CancelForbidden <==>
      isPost && FindReserva(rows, id).Some?
      && FindReserva(rows, id).value.morador != user.id && user.role != RoleValue(Gestor)
    ensures forall s :: CancelDecision(WithStatus(rows, {id}, s), user, isPost, id, now) == CancelDecision(rows, user, isPost, id, now)
  {
    forall s ensures CancelDecision(WithStatus(rows, {id}, s), user, isPost, id, now) == CancelDecision(rows, user, isPost, id, now) {
      FindReserveUnderStatus(rows, {id}, s, id);
    }
  }

  /** Changing statuses moves no row and changes no key, owner or start. */
  lemma {:induction false} FindReserveUnderStatus(rows: seq<Reserva>, selected: set<Id>, s: Status, id: Id)
    ensures FindReserva(WithStatus(rows, selected, s), id).Some? == FindReserva(rows, id).Some?
    ensures FindReserva(rows, id).Some? ==>
      FindReserva(WithStatus(rows, selected, s), id).value.(status := FindReserva(rows, id).value.status) == FindReserva(rows, id).value
  {
    if |rows| > 0 {
      var after := WithStatus(rows, selected, s);
      assert after[1..] == WithStatus(rows[1..], selected, s);
      FindReserveUnderStatus(rows[1..], selected, s, id);
    }
  }

  /** Cancelling keeps the earlier-shares property: it only makes rows inactive. */
  lemma CancelKeepsEarlierShares(rows: seq<Reserva>, selected: set<Id>)
    requires EarlierShares(rows)
    ensures EarlierShares(WithStatus(rows, selected, Cancelada))
  {
  }

  /** `cancelar_reserva`; on success only the booking's `status` changes, to CANCELADA. */
  method CancelarReserva(t: ReservaTable, user: User, isPost: bool, id: Id, now: int) returns (o: CancelOutcome)
    requires t.Valid()
    modifies t
    ensures t.Valid()
    ensures o == CancelDecision(old(t.rows), user, isPost, id, now)
    ensures o.CancelDone? ==> t.rows == WithStatus(old(t.rows), {id}, Cancelada)
    ensures !o.CancelDone? ==> t.rows == old(t.rows)
    ensures EarlierShares(old(t.rows)) ==> EarlierShares(t.rows)
  {
    if !isPost {
      return CancelBadMethod;
    }
    var found := FindReserva(t.rows, id);
    if found.None? {
      return CancelNotFound;
    }
    var reserva := found.value;
    var isOwner := reserva.morador == user.id;
    var isGestor := user.role == RoleValue(Gestor);
    if !(isOwner || isGestor) {
      return CancelForbidden;
    }
    if reserva.inicio <= now {
      return CancelAlreadyStarted;
    }
    ghost var before := t.rows;
    if EarlierShares(before) {
      CancelKeepsEarlierShares(before, {id});
    }
    var _ := t.UpdateStatus({id}, Cancelada);
    o := CancelDone(id);
  }

  /** Cancelling a second time finds the same booking, gives the same answer and changes nothing more. */
  lemma CancelIdempotent(rows: seq<Reserva>, user: User, id: Id, now: int)
    requires CancelDecision(rows, user, true, id, now).CancelDone?
    ensures var after := WithStatus(rows, {id}, Cancelada);
      CancelDecision(after, user, true, id, now).CancelDone? && WithStatus(after, {id}, Cancelada) == after
  {
    CancelRules(rows, user, true, id, now);
    WithStatusIdempotent(rows, {id}, Cancelada);
  }

  // ---- historico ----

  /** A query-string parameter: absent, or its text and the date it parses to. */
  datatype DateParam = Absent | Given(raw: string, parsed: Option<int>)

  /** The value echoed back into the form: the text typed, or the ISO text of a day. */
  datatype DateEcho = Typed(raw: string) | IsoOf(day: int)

  /** `param or default.isoformat()`, parsed, falling back to the default and its ISO text. */
  function ResolveDate(p: DateParam, default: int): (r: (int, DateEcho))
    ensures p.Given? && p.raw != "" && p.parsed.Some? ==> r == (p.parsed.value, Typed(p.raw))
    ensures !(p.Given? && p.raw != "" && p.parsed.Some?) ==> r == (default, IsoOf(default))
  {
    if p.Given? && p.raw != "" then
      match p.parsed
      case Some(d) => (d, Typed(p.raw))
      case None => (default, IsoOf(default))
    else (default, IsoOf(default))
  }

  datatype HistoricoPage = HistoricoPage(reservas: seq<Reserva>, de: DateEcho, ate: DateEcho)

  /** The default range: the last thirty days up to today. */
  const HistoricoDays: int := 30
  const HistoricoLimit: nat := 100

  predicate InHistorico(user: User, de: int, ate: int, b: Reserva) {
    b.morador == user.id && DayOf(b.inicio) >= de && DayOf(b.fim) <= ate
  }

  function ByInicioDesc(b: Reserva): int {
    -b.inicio
  }

  /**
   * `historico`: the actor's own bookings, cancelled ones included, starting
   * on or after `de` and ending on or before `ate`, latest start first: the
   * 100 that start latest when more match.
   */
  function Historico(rows: seq<Reserva>, user: User, hoje: int, deParam: DateParam, ateParam: DateParam): (h: HistoricoPage)
    ensures var de := ResolveDate(deParam, hoje - HistoricoDays).0;
      var ate := ResolveDate(ateParam, hoje).0;
      |h.reservas| <= HistoricoLimit
      && |h.reservas| == (if Count(rows, (b: Reserva) => InHistorico(user, de, ate, b)) <= HistoricoLimit
            then Count(rows, (b: Reserva) => InHistorico(user, de, ate, b)) else HistoricoLimit)
      && (forall b :: b in h.reservas ==> b in rows && InHistorico(user, de, ate, b))
      && (Count(rows, (b: Reserva) => InHistorico(user, de, ate, b)) <= HistoricoLimit ==>
            forall b :: b in rows && InHistorico(user, de, ate, b) ==> b in h.reservas)
      && (forall i, j :: 0 <= i < j < |h.reservas| ==> h.reservas[i].inicio >= h.reservas[j].inicio)
      && (forall i, b :: 0 <= i < |h.reservas| && b in rows && InHistorico(user, de, ate, b) && b !in h.reservas ==>
            h.reservas[i].inicio >= b.inicio)
    ensures h.de == ResolveDate(deParam, hoje - HistoricoDays).1 && h.ate == ResolveDate(ateParam, hoje).1
  {
    var (de, deEcho) := ResolveDate(deParam, hoje - HistoricoDays);
    var (ate, ateEcho) := ResolveDate(ateParam, hoje);
    var reservas := Select(rows, (b: Reserva) => InHistorico(user, de, ate, b), ByInicioDesc, HistoricoLimit);
    HistoricoPage(reservas, deEcho, ateEcho)
  }

  /** Without parameters the history covers the thirty days up to today, echoed as ISO dates. */
  lemma HistoricoDefaults(rows: seq<Reserva>, user: User, hoje: int, b: Reserva)
    ensures Historico(rows, user, hoje, Absent, Absent).de == IsoOf(hoje - 30)
    ensures Historico(rows, user, hoje, Absent, Absent).ate == IsoOf(hoje)
    ensures b in Historico(rows, user, hoje, Absent, Absent).reservas ==>
      b.morador == user.id && hoje - 30 <= DayOf(b.inicio) && DayOf(b.fim) <= hoje
  {
  }
}
