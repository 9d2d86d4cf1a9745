/** Primary keys and the resident units that the views look users up in. */
module Condominios {
  import opened Wrappers
  import opened Ordering

  /** An auto-increment primary key; never 0, so Python's `pk or default` tests presence. */
  type Id = x: int | 1 <= x witness 1

  /** A unit of a condominium and its current resident (`Unidade.morador`, nullable). */
  datatype Unidade = Unidade(id: Id, condominio: Id, morador: Option<Id>)

  /** What `Unidade.objects.get(morador=user)` does: no row, one row, or more than one. */
  datatype UnitLookup = NoUnit | OneUnit(unit: Unidade) | SeveralUnits

  /** Two different rows of the table name `user` as their resident. */
  predicate LivesInSeveral(units: seq<Unidade>, user: Id) {
    exists i, j :: 0 <= i < j < |units| && units[i].morador == Some(user) && units[j].morador == Some(user)
  }

  function UnidadeDoMorador(units: seq<Unidade>, user: Id): (r: UnitLookup)
    ensures r.NoUnit? <==> forall u :: u in units ==> u.morador != Some(user)
    ensures r.SeveralUnits? <==> LivesInSeveral(units, user)
    ensures r.OneUnit? <==> (exists u :: u in units && u.morador == Some(user)) && !LivesInSeveral(units, user)
    ensures r.OneUnit? ==> r.unit in units && r.unit.morador == Some(user)
    ensures r.OneUnit? ==> forall u :: u in units && u.morador == Some(user) ==> u == r.unit
  {
    var mine := Filter(units, (u: Unidade) => u.morador == Some(user));
    FilterAtLeastTwo(units, (u: Unidade) => u.morador == Some(user));
    if |mine| == 0 then NoUnit
    else if |mine| == 1 then OneUnit(mine[0])
    else SeveralUnits
  }

  /** `unidade.morador_id` for the unit with that key (the first row carrying it). */
  function ResidentOf(units: seq<Unidade>, unit: Id): (r: Option<Id>)
    ensures r.Some? ==> exists u :: u in units && u.id == unit && u.morador == r
    ensures (forall u :: u in units ==> u.id != unit) ==> r.None?
    ensures forall i :: 0 <= i < |units| && units[i].id == unit && (forall j :: 0 <= j < i ==> units[j].id != unit) ==>
      r == units[i].morador
  {
    if |units| == 0 then None
    else if units[0].id == unit then units[0].morador
    else ResidentOf(units[1..], unit)
  }
}
