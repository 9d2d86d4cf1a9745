/**
 * Bookable areas, reservations and the reservation validator
 * (reservas/models.py).  Querysets are replaced by the sequence of all
 * reservation rows, in creation order.
 */
module ReservasModels {
  import opened Wrappers
  import opened Clock
  import opened Ordering
  import opened Condominios

  /**
   * An entry of `datas_bloqueadas`.  The validator compares the ISO text of a
   * date with each entry, so an entry matches a day exactly when it is that
   * day's canonical `YYYY-MM-DD` text; every other text never matches.
   */
  datatype BlockedEntry = IsoDay(day: int) | OtherText(raw: string)

  /** `AreaReservavel`: the weekday allow-list, the opening hours and the blocked dates. */
  datatype Area = Area(
    id: Id,
    condominio: Id,
    diasPermitidos: seq<int>,                   // 0 = Monday .. 6 = Sunday; empty = every day
    horaInicio: Option<TimeOfDay>,              // unset = no lower bound
    horaFim: Option<TimeOfDay>,                 // unset = no upper bound
    datasBloqueadas: Option<seq<BlockedEntry>>  // `None` = JSON null
  )

  /** `Reserva.Status`. */
  datatype Status = Pendente | Aprovada | Cancelada

  /** The value stored in the `status` column. */
  function StatusValue(s: Status): string {
    match s
    case Pendente => "PENDENTE"
    case Aprovada => "APROVADA"
    case Cancelada => "CANCELADA"
  }

  /** A reservation row; `id` is `None` until the row is saved. */
  datatype Reserva = Reserva(
    id: Option<Id>,
    area: Id,
    morador: Id,
    inicio: int,
    fim: int,
    status: Status,
    permiteCompartilhar: bool
  )

  /** `Reserva(area=..., morador=..., inicio=..., fim=...)` with every other field at its default. */
  function NewReserva(area: Id, morador: Id, inicio: int, fim: int): (r: Reserva)
    ensures r.id.None? && r.area == area && r.morador == morador && r.inicio == inicio && r.fim == fim
    ensures r.status == Pendente && !r.permiteCompartilhar
  {
    Reserva(None, area, morador, inicio, fim, Pendente, false)
  }

  /** "Active": every status but CANCELADA. */
  predicate Active(b: Reserva) {
    b.status != Cancelada
  }

  /** The half-open overlap test of the ORM filters `inicio__lt=fim, fim__gt=inicio`. */
  predicate Overlaps(b: Reserva, inicio: int, fim: int) {
    b.inicio < fim && b.fim > inicio
  }

  /** `area.datas_bloqueadas or []`. */
  function BlockedList(area: Area): seq<BlockedEntry> {
    area.datasBloqueadas.GetOr([])
  }

  predicate DayBlocked(area: Area, day: int) {
    IsoDay(day) in BlockedList(area)
  }

  /** `not area.dias_permitidos or weekday in area.dias_permitidos`. */
  predicate WeekdayAllowed(area: Area, day: int) {
    |area.diasPermitidos| == 0 || WeekdayOf(day) in area.diasPermitidos
  }

  /**
   * The conflict query of `clean`: same area, not the reservation itself
   * (`exclude(pk=self.pk)`, which for an unsaved one drops only rows without a
   * key), not cancelled, and overlapping.
   */
  predicate ConflictsWith(area: Area, r: Reserva, b: Reserva) {
    b.area == area.id && b.id != r.id && Active(b) && Overlaps(b, r.inicio, r.fim)
  }

  function Conflicts(area: Area, r: Reserva, rows: seq<Reserva>): (c: seq<Reserva>)
    ensures forall b :: b in c <==> b in rows && ConflictsWith(area, r, b)
  {
    Filter(rows, (b: Reserva) => ConflictsWith(area, r, b))
  }

  /** The reasons `clean` reports, one per `ValidationError` it raises. */
  datatype Rejection =
    | InvalidRange        // início deve ser antes do fim
    | WeekdayNotAllowed   // dia da semana não permitido
    | StartBeforeOpening  // horário de início antes do permitido
    | EndAfterClosing     // horário de fim após o permitido
    | DateBlocked         // data bloqueada
    | OverlapDenied       // já existe reserva que conflita

  datatype Verdict = Accepted | Rejected(reason: Rejection)

  /** `Reserva.clean` for reservation `r` of `area`, against all rows of the table. */
  function Clean(area: Area, r: Reserva, rows: seq<Reserva>): Verdict {
    var localDate := DayOf(r.inicio);
    if r.inicio >= r.fim then Rejected(InvalidRange)
    else if |area.diasPermitidos| > 0 && WeekdayOf(localDate) !in area.diasPermitidos then Rejected(WeekdayNotAllowed)
    else if area.horaInicio.Some? && TimeOf(r.inicio) < area.horaInicio.value then Rejected(StartBeforeOpening)
    else if area.horaFim.Some? && TimeOf(r.fim) > area.horaFim.value then Rejected(EndAfterClosing)
    else if IsoDay(localDate) in BlockedList(area) then Rejected(DateBlocked)
    else
      var conflitos := Conflicts(area, r, rows);
      if |conflitos| > 0 && !(forall c :: c in conflitos ==> c.permiteCompartilhar) then Rejected(OverlapDenied)
      else Accepted
  }

  // ---- The rules one by one, as an independent reference for Clean ----

  /** Whether `r` breaks the rule behind `reason`, judged on its own. */
  predicate Violates(area: Area, r: Reserva, rows: seq<Reserva>, reason: Rejection) {
    match reason
    case InvalidRange => r.inicio >= r.fim
    case WeekdayNotAllowed => !WeekdayAllowed(area, DayOf(r.inicio))
    case StartBeforeOpening => area.horaInicio.Some? && TimeOf(r.inicio) < area.horaInicio.value
    case EndAfterClosing => area.horaFim.Some? && TimeOf(r.fim) > area.horaFim.value
    case DateBlocked => DayBlocked(area, DayOf(r.inicio))
    case OverlapDenied => exists b :: b in rows && ConflictsWith(area, r, b) && !b.permiteCompartilhar
  }

  /** The order in which `clean` checks the rules. */
  const CheckOrder: seq<Rejection> :=
    [InvalidRange, WeekdayNotAllowed, StartBeforeOpening, EndAfterClosing, DateBlocked, OverlapDenied]

  /** The first rule of `order` that `r` breaks, or acceptance when it breaks none. */
  function FirstViolated(area: Area, r: Reserva, rows: seq<Reserva>, order: seq<Rejection>): (v: Verdict)
    ensures v == Accepted <==> forall i :: 0 <= i < |order| ==> !Violates(area, r, rows, order[i])
    ensures v.Rejected? ==>
      exists i :: (0 <= i < |order| && order[i] == v.reason && Violates(area, r, rows, order[i])
        && forall j :: 0 <= j < i ==> !Violates(area, r, rows, order[j]))
  {
    if |order| == 0 then Accepted
    else if Violates(area, r, rows, order[0]) then Rejected(order[0])
    else
      var v := FirstViolated(area, r, rows, order[1..]);
      assert forall i :: 1 <= i < |order| ==> order[i] == order[1..][i - 1];
      if v.Rejected? then
        var k :| 0 <= k < |order[1..]| && order[1..][k] == v.reason
          && Violates(area, r, rows, order[1..][k]) && forall j :: 0 <= j < k ==> !Violates(area, r, rows, order[1..][j]);
        assert forall j :: 0 <= j < k + 1 ==> !Violates(area, r, rows, order[j]) by {
          forall j | 0 <= j < k + 1 ensures !Violates(area, r, rows, order[j]) {
            if j > 0 { assert order[j] == order[1..][j - 1]; }
          }
        }
        v
      else
        v
  }

  /** Clean's last test reads the same as the overlap rule. */
  lemma OverlapTest(area: Area, r: Reserva, rows: seq<Reserva>)
    ensures Violates(area, r, rows, OverlapDenied) <==>
      var conflitos := Conflicts(area, r, rows);
      |conflitos| > 0 && !(forall c :: c in conflitos ==> c.permiteCompartilhar)
  {
    var conflitos := Conflicts(area, r, rows);
    if Violates(area, r, rows, OverlapDenied) {
      var b :| b in rows && ConflictsWith(area, r, b) && !b.permiteCompartilhar;
      assert b in conflitos;
    }
  }

  /** `clean` reports the first rule, in checking order, that the reservation breaks. */
  lemma CleanReportsFirstViolation(area: Area, r: Reserva, rows: seq<Reserva>)
    ensures Clean(area, r, rows) == FirstViolated(area, r, rows, CheckOrder)
  {
    var expected :=
      if Violates(area, r, rows, InvalidRange) then Rejected(InvalidRange)
      else if Violates(area, r, rows, WeekdayNotAllowed) then Rejected(WeekdayNotAllowed)
      else if Violates(area, r, rows, StartBeforeOpening) then Rejected(StartBeforeOpening)
      else if Violates(area, r, rows, EndAfterClosing) then Rejected(EndAfterClosing)
      else if Violates(area, r, rows, DateBlocked) then Rejected(DateBlocked)
      else if Violates(area, r, rows, OverlapDenied) then Rejected(OverlapDenied)
      else Accepted;
    assert Clean(area, r, rows) == expected by {
      OverlapTest(area, r, rows);
    }
    assert FirstViolated(area, r, rows, CheckOrder) == expected by {
      var o5: seq<Rejection> := [OverlapDenied];
      var o4 := [DateBlocked] + o5;
      var o3 := [EndAfterClosing] + o4;
      var o2 := [StartBeforeOpening] + o3;
      var o1 := [WeekdayNotAllowed] + o2;
      assert CheckOrder == [InvalidRange] + o1;
      assert o5 == [OverlapDenied] + [];
      FirstViolatedCons(area, r, rows, InvalidRange, o1);
      FirstViolatedCons(area, r, rows, WeekdayNotAllowed, o2);
      FirstViolatedCons(area, r, rows, StartBeforeOpening, o3);
      FirstViolatedCons(area, r, rows, EndAfterClosing, o4);
      FirstViolatedCons(area, r, rows, DateBlocked, o5);
      FirstViolatedCons(area, r, rows, OverlapDenied, []);
    }
  }

  /** One step of `FirstViolated`: the head rule, else the rest. */
  lemma FirstViolatedCons(area: Area, r: Reserva, rows: seq<Reserva>, x: Rejection, rest: seq<Rejection>)
    ensures FirstViolated(area, r, rows, [x] + rest) ==
      if Violates(area, r, rows, x) then Rejected(x) else FirstViolated(area, r, rows, rest)
  {
    assert ([x] + rest)[1..] == rest;
  }

  /** Every rule is in the checking order, and only once. */
  lemma CheckOrderCoversAll()
    ensures forall reason :: reason in CheckOrder
    ensures forall i, j :: 0 <= i < j < |CheckOrder| ==> CheckOrder[i] != CheckOrder[j]
  {
    forall reason ensures reason in CheckOrder {
      match reason
      case InvalidRange => assert CheckOrder[0] == reason;
      case WeekdayNotAllowed => assert CheckOrder[1] == reason;
      case StartBeforeOpening => assert CheckOrder[2] == reason;
      case EndAfterClosing => assert CheckOrder[3] == reason;
      case DateBlocked => assert CheckOrder[4] == reason;
      case OverlapDenied => assert CheckOrder[5] == reason;
    }
  }

  /**
   * Acceptance is exactly "no rule broken", and `clean` reports the i-th rule
   * exactly when that rule is broken and every earlier rule is kept.
   */
  lemma CleanVerdicts(area: Area, r: Reserva, rows: seq<Reserva>, i: nat)
    requires i < |CheckOrder|
    ensures Clean(area, r, rows) == Accepted <==> forall reason :: !Violates(area, r, rows, reason)
    ensures Clean(area, r, rows) == Rejected(CheckOrder[i]) <==>
      Violates(area, r, rows, CheckOrder[i]) && forall j :: 0 <= j < i ==> !Violates(area, r, rows, CheckOrder[j])
  {
    CleanReportsFirstViolation(area, r, rows);
    CheckOrderCoversAll();
    var order := CheckOrder;
    var v := FirstViolated(area, r, rows, order);
    if v.Rejected? {
      var k :| 0 <= k < |order| && order[k] == v.reason
        && Violates(area, r, rows, order[k]) && forall j :: 0 <= j < k ==> !Violates(area, r, rows, order[j]);
      if Violates(area, r, rows, order[i]) && forall j :: 0 <= j < i ==> !Violates(area, r, rows, order[j]) {
        assert k == i;
      }
      if v == Rejected(order[i]) {
        assert k == i;
      }
    }
  }

  /**
   * A reservation that passes the range, weekday, hour and date rules is
   * accepted exactly when every conflicting active reservation allows sharing.
   */
  lemma CleanOverlapPolicy(area: Area, r: Reserva, rows: seq<Reserva>)
    requires forall reason :: reason != OverlapDenied ==> !Violates(area, r, rows, reason)
    ensures Clean(area, r, rows) == Accepted <==>
      forall b :: b in rows && ConflictsWith(area, r, b) ==> b.permiteCompartilhar
  {
    CleanVerdicts(area, r, rows, 0);
  }

  /** The candidate's own `permite_compartilhar` plays no part in the verdict. */
  lemma {:induction false} OwnSharingFlagIgnored(area: Area, r: Reserva, rows: seq<Reserva>, flag: bool)
    ensures Clean(area, r.(permiteCompartilhar := flag), rows) == Clean(area, r, rows)
  {
    var r' := r.(permiteCompartilhar := flag);
    FilterSame(rows, (b: Reserva) => ConflictsWith(area, r', b), (b: Reserva) => ConflictsWith(area, r, b));
  }

  /**
   * No self-conflict: once an accepted reservation is saved under a fresh key,
   * validating it again against the table that now holds it still accepts it.
   */
  lemma RevalidationAfterSave(area: Area, r: Reserva, rows: seq<Reserva>, key: Id)
    requires Clean(area, r, rows) == Accepted
    requires r.id.None?
    requires forall b :: b in rows ==> b.id.Some? && b.id != Some(key)
    ensures Clean(area, r.(id := Some(key)), rows + [r.(id := Some(key))]) == Accepted
  {
    var saved := r.(id := Some(key));
    var after := rows + [saved];
    CleanVerdicts(area, r, rows, 0);
    forall b | b in after && ConflictsWith(area, saved, b) ensures b.permiteCompartilhar {
      assert b != saved;
      assert b in rows;
      assert ConflictsWith(area, r, b);
    }
    assert !Violates(area, saved, after, OverlapDenied);
    CleanVerdicts(area, saved, after, 0);
  }

  // ---- The table of reservations ----

  /**
   * Of two overlapping active reservations of one area, the one created first
   * allows sharing.  As a consequence two active reservations that both refuse
   * sharing never overlap.
   */
  ghost predicate EarlierShares(rows: seq<Reserva>) {
    forall i, j ::
      (0 <= i < j < |rows| && rows[i].area == rows[j].area && Active(rows[i]) && Active(rows[j])
       && Overlaps(rows[i], rows[j].inicio, rows[j].fim)) ==> rows[i].permiteCompartilhar
  }

  lemma NoExclusiveOverlap(rows: seq<Reserva>, i: nat, j: nat)
    requires EarlierShares(rows) && i < |rows| && j < |rows| && i != j
    requires rows[i].area == rows[j].area && Active(rows[i]) && Active(rows[j])
    requires !rows[i].permiteCompartilhar && !rows[j].permiteCompartilhar
    ensures !Overlaps(rows[i], rows[j].inicio, rows[j].fim)
  {
  }

  /** Saving a reservation that `clean` accepted keeps the earlier-shares property. */
  lemma AcceptedSaveKeepsEarlierShares(area: Area, r: Reserva, rows: seq<Reserva>, key: Id)
    requires EarlierShares(rows)
    requires r.area == area.id && r.id.None?
    requires forall b :: b in rows ==> b.id.Some?
    requires Clean(area, r, rows) == Accepted
    ensures EarlierShares(rows + [r.(id := Some(key))])
  {
    var after := rows + [r.(id := Some(key))];
    CleanVerdicts(area, r, rows, 0);
    forall i | 0 <= i < |rows| && rows[i].area == r.area && Active(rows[i]) && Active(r) && Overlaps(rows[i], r.inicio, r.fim)
      ensures rows[i].permiteCompartilhar
    {
      assert ConflictsWith(area, r, rows[i]);
    }
    assert forall i :: 0 <= i < |rows| ==> after[i] == rows[i];
  }

  /** `queryset.update(status=s)` on the rows whose key is selected. */
  function WithStatus(rows: seq<Reserva>, selected: set<Id>, s: Status): (r: seq<Reserva>)
    ensures |r| == |rows|
    ensures forall i :: 0 <= i < |rows| ==>
      r[i] == if Selected(rows[i], selected) then rows[i].(status := s) else rows[i]
  {
    Map(rows, (b: Reserva) => if Selected(b, selected) then b.(status := s) else b)
  }

  predicate Selected(b: Reserva, selected: set<Id>) {
    b.id.Some? && b.id.value in selected
  }

  /** The number `update` reports: the rows it matched. */
  function CountSelected(rows: seq<Reserva>, selected: set<Id>): nat {
    Count(rows, (b: Reserva) => Selected(b, selected))
  }

  /** An update touches only `status`, and repeating it changes nothing more. */
  lemma WithStatusIdempotent(rows: seq<Reserva>, selected: set<Id>, s: Status)
    ensures WithStatus(WithStatus(rows, selected, s), selected, s) == WithStatus(rows, selected, s)
    ensures forall i :: 0 <= i < |rows| ==> WithStatus(rows, selected, s)[i].(status := rows[i].status) == rows[i]
  {
  }

  /** The set of keys of the rows. */
  function Keys(rows: seq<Reserva>): (ks: set<Id>)
    ensures forall b :: b in rows && b.id.Some? ==> b.id.value in ks
  {
    if |rows| == 0 then {}
    else (if rows[0].id.Some? then {rows[0].id.value} else {}) + Keys(rows[1..])
  }

  predicate DistinctKeys(rows: seq<Reserva>) {
    forall i, j :: 0 <= i < j < |rows| ==> rows[i].id != rows[j].id
  }

  /** Every key of the rows is the key of one of them. */
  lemma {:induction false} KeysAreKeys(rows: seq<Reserva>, k: Id)
    requires k in Keys(rows)
    ensures exists i :: 0 <= i < |rows| && rows[i].id == Some(k)
  {
    if rows[0].id != Some(k) {
      KeysAreKeys(rows[1..], k);
      var i :| 0 <= i < |rows[1..]| && rows[1..][i].id == Some(k);
      assert rows[i + 1].id == Some(k);
    }
  }

  /** `update` counts the first row and then the rest. */
  lemma CountSelectedCons(rows: seq<Reserva>, selected: set<Id>)
    requires |rows| > 0
    ensures CountSelected(rows, selected) ==
      (if Selected(rows[0], selected) then 1 else 0) + CountSelected(rows[1..], selected)
  {
  }

  /** A key not among the rest adds itself to the selected keys when selected. */
  lemma SelectedKeysCons(rows: seq<Reserva>, selected: set<Id>)
    requires |rows| > 0
    requires rows[0].id.Some? ==> rows[0].id.value !in Keys(rows[1..])
    ensures |selected * Keys(rows)| ==
      (if Selected(rows[0], selected) then 1 else 0) + |selected * Keys(rows[1..])|
  {
    var rest := Keys(rows[1..]);
    if rows[0].id.Some? {
      var k := rows[0].id.value;
      assert Keys(rows) == {k} + rest;
      if k in selected {
        assert selected * Keys(rows) == {k} + selected * rest;
      } else {
        assert selected * Keys(rows) == selected * rest;
      }
    } else {
      assert Keys(rows) == rest;
    }
  }

  /** With distinct keys the first key does not reappear further on. */
  lemma FirstKeyUnique(rows: seq<Reserva>)
    requires |rows| > 0 && DistinctKeys(rows)
    ensures rows[0].id.Some? ==> rows[0].id.value !in Keys(rows[1..])
  {
    if rows[0].id.Some? && rows[0].id.value in Keys(rows[1..]) {
      KeysAreKeys(rows[1..], rows[0].id.value);
      assert false;
    }
  }

  /** With distinct keys, `update` reports one row per selected key that exists. */
  lemma {:induction false} CountSelectedIsSelection(rows: seq<Reserva>, selected: set<Id>)
    requires DistinctKeys(rows)
    ensures CountSelected(rows, selected) == |selected * Keys(rows)|
  {
    if |rows| > 0 {
      var tail := rows[1..];
      assert DistinctKeys(tail);
      CountSelectedIsSelection(tail, selected);
      CountSelectedCons(rows, selected);
      FirstKeyUnique(rows);
      SelectedKeysCons(rows, selected);
    }
  }

  /** Approving without a transition check can revive a cancelled reservation over an exclusive one. */
  lemma ApprovalCanBreakEarlierShares()
    ensures var rows := [Reserva(Some(1), 1, 1, 600, 660, Aprovada, false), Reserva(Some(2), 1, 2, 600, 660, Cancelada, false)];
      EarlierShares(rows) && !EarlierShares(WithStatus(rows, {2}, Aprovada))
  {
    var rows := [Reserva(Some(1), 1, 1, 600, 660, Aprovada, false), Reserva(Some(2), 1, 2, 600, 660, Cancelada, false)];
    var after := WithStatus(rows, {2}, Aprovada);
    assert after[0] == rows[0] && after[1] == rows[1].(status := Aprovada);
  }

  /** The reservation table (`Reserva.objects`), rows in creation order. */
  class ReservaTable {
    var rows: seq<Reserva>
    var nextId: Id

    ghost predicate Valid()
      reads this
    {
      (forall i :: 0 <= i < |rows| ==> rows[i].id.Some? && rows[i].id.value < nextId) && DistinctKeys(rows)
    }

    constructor ()
      ensures Valid() && rows == []
    {
      rows := [];
      nextId := 1;
    }

    /** `r.save()` of a new row: it gets the next key and goes to the end. */
    method Insert(r: Reserva) returns (saved: Reserva)
      requires Valid()
      modifies this
      ensures Valid()
      ensures saved == r.(id := Some(old(nextId)))
      ensures rows == old(rows) + [saved]
      ensures nextId > old(nextId)
    {
      saved := r.(id := Some(nextId));
      rows := rows + [saved];
      nextId := nextId + 1;
    }

    /** `queryset.update(status=s)` on the selected keys; returns the number of rows matched. */
    method UpdateStatus(selected: set<Id>, s: Status) returns (updated: nat)
      requires Valid()
      modifies this
      ensures Valid() && nextId == old(nextId)
      ensures rows == WithStatus(old(rows), selected, s)
      ensures updated == CountSelected(old(rows), selected)
    {
      updated := CountSelected(rows, selected);
      rows := WithStatus(rows, selected, s);
    }
  }
}
