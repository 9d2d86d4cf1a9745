/**
 * The assembly pages (assembleias/views.py): the list of upcoming and past
 * assemblies a user may see, and the detail page that applies the same rule.
 * The request's user is always authenticated here (both views require a
 * login); `agora` is the current instant.
 */
module AssembleiasViews {
  import opened Wrappers
  import opened Ordering
  import opened Condominios
  import opened AccountsModels
  import opened AssembleiasModels

  /**
   * `_condominio_do_morador`: no condominium, the condominium of the user's
   * unit, or the `MultipleObjectsReturned` that escapes when the user is the
   * resident of more than one unit (only `DoesNotExist` is caught).
   */
  datatype CondLookup = NoCond | Cond(id: Id) | CondLookupFails

  function CondominioDoMorador(p: Principal, units: seq<Unidade>): (r: CondLookup)
    ensures p.Anonymous? ==> r == NoCond
    ensures p.Authenticated? ==> (r == NoCond <==> forall u :: u in units ==> u.morador != Some(p.user.id))
    ensures r.Cond? ==> p.Authenticated? && (forall u :: u in units && u.morador == Some(p.user.id) ==> u.condominio == r.id)
    ensures r.Cond? ==> exists u :: u in units && u.morador == Some(p.user.id) && u.condominio == r.id
    ensures r.CondLookupFails? <==> p.Authenticated? && LivesInSeveral(units, p.user.id)
    ensures p.Authenticated? && (exists u :: u in units && u.morador == Some(p.user.id)) && !LivesInSeveral(units, p.user.id) ==> r.Cond?
  {
    match p
    case Anonymous => NoCond
    case Authenticated(user) =>
      match UnidadeDoMorador(units, user.id)
      case NoUnit => NoCond
      case OneUnit(u) => Cond(u.condominio)
      case SeveralUnits => CondLookupFails
  }

  /** A GESTOR or a staff user sees every assembly. */
  predicate SeesAll(user: User) {
    user.role == RoleValue(Gestor) || user.isStaff
  }

  /** `Q(condominio=cond) | Q(destinatarios=user)`. */
  predicate ListaMember(a: Assembleia, user: User, cond: Option<Id>) {
    (cond.Some? && a.condominio == Some(cond.value)) || user.id in a.destinatarios
  }

  /** The assemblies `lista` starts from, or `None` when the condominium lookup fails. */
  function Visiveis(asms: seq<Assembleia>, user: User, units: seq<Unidade>): (r: Option<seq<Assembleia>>)
    ensures r.None? <==> !SeesAll(user) && CondominioDoMorador(Authenticated(user), units).CondLookupFails?
    ensures SeesAll(user) ==> r == Some(asms)
    ensures Distinct(asms) && r.Some? ==> Distinct(r.value)
  {
    if SeesAll(user) then Some(asms)
    else
      match CondominioDoMorador(Authenticated(user), units)
      case CondLookupFails => None
      case NoCond =>
        var v := Filter(asms, (a: Assembleia) => ListaMember(a, user, None));
        if Distinct(asms) then FilterDistinct(asms, (a: Assembleia) => ListaMember(a, user, None)); Some(v)
        else Some(v)
      case Cond(c) =>
        var v := Filter(asms, (a: Assembleia) => ListaMember(a, user, Some(c)));
        if Distinct(asms) then FilterDistinct(asms, (a: Assembleia) => ListaMember(a, user, Some(c))); Some(v)
        else Some(v)
  }

  datatype ListaOutcome = ListaFails | Lista(proximas: seq<Assembleia>, passadas: seq<Assembleia>)

  /** `lista`: the visible assemblies from `agora` on, soonest first, and those before, latest first. */
  function ListaPage(asms: seq<Assembleia>, user: User, units: seq<Unidade>, agora: int): (r: ListaOutcome)
    ensures r.ListaFails? <==> Visiveis(asms, user, units).None?
  {
    match Visiveis(asms, user, units)
    case None => ListaFails
    case Some(v) => Lista(Futuras(v, agora), Passadas(v, agora))
  }

  /** Who `lista` shows an assembly to, stated without the query. */
  predicate Autorizado(a: Assembleia, user: User, units: seq<Unidade>) {
    SeesAll(user) ||
    match CondominioDoMorador(Authenticated(user), units)
    case Cond(c) => a.condominio == Some(c) || user.id in a.destinatarios
    case _ => user.id in a.destinatarios
  }

  /**
   * The list holds exactly the authorised assemblies, split at `agora`, each
   * part ordered, and every visible assembly in exactly one of the two parts.
   */
  lemma ListaContents(asms: seq<Assembleia>, user: User, units: seq<Unidade>, agora: int)
    ensures var r := ListaPage(asms, user, units, agora);
      r.Lista? ==>
        (forall a :: a in r.proximas <==> a in asms && Autorizado(a, user, units) && a.quando >= agora)
        && (forall a :: a in r.passadas <==> a in asms && Autorizado(a, user, units) && a.quando < agora)
        && (forall i, j :: 0 <= i < j < |r.proximas| ==> r.proximas[i].quando <= r.proximas[j].quando)
        && (forall i, j :: 0 <= i < j < |r.passadas| ==> r.passadas[i].quando >= r.passadas[j].quando)
        && multiset(r.proximas) + multiset(r.passadas) == multiset(Visiveis(asms, user, units).value)
  {
    var v := Visiveis(asms, user, units);
    if v.Some? {
      FuturasPassadasPartition(v.value, agora);
    }
  }

  /** A list built from rows without repeats shows each assembly once. */
  lemma ListaDistinct(asms: seq<Assembleia>, user: User, units: seq<Unidade>, agora: int)
    requires Distinct(asms)
    ensures var r := ListaPage(asms, user, units, agora);
      r.Lista? ==> Distinct(r.proximas) && Distinct(r.passadas)
  {
    var v := Visiveis(asms, user, units);
    if v.Some? {
      var p := Filter(v.value, (a: Assembleia) => IsFutura(a, agora));
      var q := Filter(v.value, (a: Assembleia) => !IsFutura(a, agora));
      FilterDistinct(v.value, (a: Assembleia) => IsFutura(a, agora));
      FilterDistinct(v.value, (a: Assembleia) => !IsFutura(a, agora));
      PermutationDistinct(p, SortOn(p, ByQuando));
      PermutationDistinct(q, SortOn(q, ByQuandoDesc));
    }
  }

  /** The recipient rule of `lista` is not that of `visiveis_para`: an assembly for everyone is not listed to a non-member. */
  lemma ListaIgnoresOpenAssemblies()
    ensures var a := Assembleia(Some(1), Some(2), 100, {});
      var user := User(5, "MORADOR", false);
      a in VisiveisPara([a], Authenticated(user)) && ListaPage([a], user, [], 0) == Lista([], [])
  {
    var a := Assembleia(Some(1), Some(2), 100, {});
    var user := User(5, "MORADOR", false);
    assert Visiveis([a], user, []) == Some([]);
  }

  /** The first assembly with primary key `pk` (`get_object_or_404`). */
  function FindAssembleia(asms: seq<Assembleia>, pk: Id): (r: Option<Assembleia>)
    ensures r.Some? ==> r.value in asms && r.value.id == Some(pk)
    ensures r.None? <==> forall a :: a in asms ==> a.id != Some(pk)
  {
    if |asms| == 0 then None
    else if asms[0].id == Some(pk) then Some(asms[0])
    else FindAssembleia(asms[1..], pk)
  }

  datatype DetalheOutcome = DetalheNotFound | DetalheFails | Show(a: Assembleia)

  /** `detalhe`: look the assembly up, then authorise; an unauthorised user gets the same not-found. */
  function Detalhe(asms: seq<Assembleia>, pk: Id, user: User, units: seq<Unidade>): (r: DetalheOutcome)
    ensures r.Show? ==> r.a in asms && r.a.id == Some(pk)
  {
    match FindAssembleia(asms, pk)
    case None => DetalheNotFound
    case Some(asm) =>
      if SeesAll(user) then Show(asm)
      else
        match CondominioDoMorador(Authenticated(user), units)
        case CondLookupFails => DetalheFails
        case NoCond => if user.id in asm.destinatarios then Show(asm) else DetalheNotFound
        case Cond(c) =>
          if asm.condominio == Some(c) || user.id in asm.destinatarios then Show(asm) else DetalheNotFound
  }

  /**
   * `detalhe` shows an assembly exactly when `lista`, for the same user at any
   * instant, lists it; a missing key and an unauthorised one look the same,
   * and the detail page fails exactly where the list does.
   */
  lemma DetalheMatchesLista(asms: seq<Assembleia>, pk: Id, user: User, units: seq<Unidade>, agora: int)
    ensures var d := Detalhe(asms, pk, user, units);
      var l := ListaPage(asms, user, units, agora);
      match FindAssembleia(asms, pk)
      case None => d == DetalheNotFound
      case Some(a) =>
        (d.DetalheFails? <==> l.ListaFails?)
        && (l.Lista? ==> (d == Show(a) <==> a in l.proximas || a in l.passadas))
        && (l.Lista? ==> (d == DetalheNotFound <==> a !in l.proximas && a !in l.passadas))
  {
    var f := FindAssembleia(asms, pk);
    if f.Some? {
      var a := f.value;
      var l := ListaPage(asms, user, units, agora);
      if l.Lista? {
        assert a in l.proximas || a in l.passadas <==> Autorizado(a, user, units) by {
          ListaContents(asms, user, units, agora);
        }
      }
    }
  }

  /** A GESTOR or staff user gets every assembly in the list and every existing key on the detail page. */
  lemma SeesAllSeesEverything(asms: seq<Assembleia>, pk: Id, user: User, units: seq<Unidade>, agora: int)
    requires SeesAll(user)
    ensures ListaPage(asms, user, units, agora) == Lista(Futuras(asms, agora), Passadas(asms, agora))
    ensures FindAssembleia(asms, pk).Some? ==> Detalhe(asms, pk, user, units) == Show(FindAssembleia(asms, pk).value)
  {
  }

  /** Another user sees the assemblies of their condominium and those naming them as a recipient, and nothing else. */
  lemma ResidentSees(a: Assembleia, user: User, units: seq<Unidade>)
    requires !SeesAll(user)
    requires !CondominioDoMorador(Authenticated(user), units).CondLookupFails?
    ensures Autorizado(a, user, units) <==>
      user.id in a.destinatarios ||
      (exists u :: u in units && u.morador == Some(user.id) && a.condominio == Some(u.condominio))
  {
    var c := CondominioDoMorador(Authenticated(user), units);
    if c.Cond? && !Autorizado(a, user, units) {
      forall u | u in units && u.morador == Some(user.id) ensures a.condominio != Some(u.condominio) {
        assert u.condominio == c.id;
      }
    }
  }
}
