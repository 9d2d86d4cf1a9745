/**
 * Assemblies (assembleias/models.py): the upload paths of their attachments,
 * who may see them, the upcoming/past split and whether one has taken place.
 * Instants are minutes on the clock the model compares them with; the random
 * token of a not-yet-saved assembly is a parameter (the hex text of a fresh
 * `uuid4`).
 */
module AssembleiasModels {
  import opened Wrappers
  import opened Text
  import opened Ordering
  import opened Condominios
  import opened AccountsModels

  /** An `Assembleia` row; `destinatarios` is the optional recipient set (empty = everyone). */
  datatype Assembleia = Assembleia(
    id: Option<Id>,
    condominio: Option<Id>,
    quando: int,
    destinatarios: set<Id>
  )

  // ---- Attachment paths ----

  predicate IsHex(c: char) {
    '0' <= c <= '9' || 'a' <= c <= 'f'
  }

  /** `instance.pk or f"tmp-{token[:8]}"`. */
  function BaseSegment(a: Assembleia, token: string): string {
    if a.id.Some? then IntToString(a.id.value) else "tmp-" + Take(token, 8)
  }

  /** `instance.condominio_id or "sem-cond"`. */
  function CondSegment(a: Assembleia): string {
    if a.condominio.Some? then IntToString(a.condominio.value) else "sem-cond"
  }

  /** The path of an attachment in folder `kind` ("convocacao" or "ata"). */
  function AttachmentPath(a: Assembleia, token: string, kind: string, filename: string): string {
    "assembleias/" + CondSegment(a) + "/" + BaseSegment(a, token) + "/" + kind + "/" + filename
  }

  /** `ata_convocacao_path`. */
  function AtaConvocacaoPath(a: Assembleia, token: string, filename: string): string {
    AttachmentPath(a, token, "convocacao", filename)
  }

  /** `ata_final_path`. */
  function AtaFinalPath(a: Assembleia, token: string, filename: string): string {
    AttachmentPath(a, token, "ata", filename)
  }

  /** A uuid4 hex text. */
  predicate UuidHex(token: string) {
    |token| == 32 && forall i :: 0 <= i < |token| ==> IsHex(token[i])
  }

  /** Neither folder segment holds a slash. */
  lemma SegmentsHaveNoSlash(a: Assembleia, token: string)
    requires UuidHex(token)
    ensures '/' !in CondSegment(a) && '/' !in BaseSegment(a, token)
  {
    if a.id.None? {
      var b := BaseSegment(a, token);
      assert b == "tmp-" + token[..8];
    }
  }

  /**
   * An attachment path splits at `/` into `assembleias`, the condominium
   * segment, the base segment, the folder, then the file name's own segments;
   * the condominium segment reads back as its key or is `sem-cond`, and the
   * base segment reads back as the key or is `tmp-` and eight hex digits.
   */
  lemma AttachmentPathSegments(a: Assembleia, token: string, kind: string, filename: string)
    requires UuidHex(token) && '/' !in kind
    ensures Split(AttachmentPath(a, token, kind, filename), '/') ==
      ["assembleias", CondSegment(a), BaseSegment(a, token), kind] + Split(filename, '/')
    ensures a.condominio.Some? ==> DecimalValue(CondSegment(a)) == a.condominio.value
    ensures a.condominio.None? ==> CondSegment(a) == "sem-cond"
    ensures a.id.Some? ==> DecimalValue(BaseSegment(a, token)) == a.id.value
    ensures a.id.None? ==> var b := BaseSegment(a, token);
      |b| == 12 && b[..4] == "tmp-" && forall i :: 4 <= i < 12 ==> IsHex(b[i])
  {
    AttachmentPathSplit(a, token, kind, filename);
    if a.condominio.Some? {
      NatToStringRoundTrip(a.condominio.value);
    }
    if a.id.Some? {
      NatToStringRoundTrip(a.id.value);
    }
  }

  /** The `/`-segments of an attachment path. */
  lemma AttachmentPathSplit(a: Assembleia, token: string, kind: string, filename: string)
    requires UuidHex(token) && '/' !in kind
    ensures Split(AttachmentPath(a, token, kind, filename), '/') ==
      ["assembleias", CondSegment(a), BaseSegment(a, token), kind] + Split(filename, '/')
  {
    SegmentsHaveNoSlash(a, token);
    var c := CondSegment(a);
    var b := BaseSegment(a, token);
    assert AttachmentPath(a, token, kind, filename) == "assembleias" + ['/'] + c + ['/'] + b + ['/'] + kind + ['/'] + filename;
    SplitFourSegments("assembleias", c, b, kind, filename);
  }

  /** The two attachments of one assembly live side by side: only the folder differs. */
  lemma AttachmentFolders(a: Assembleia, token: string, filename: string)
    requires UuidHex(token)
    ensures var conv := Split(AtaConvocacaoPath(a, token, filename), '/');
      var ata := Split(AtaFinalPath(a, token, filename), '/');
      |conv| >= 5 && |ata| >= 5 && conv[..3] == ata[..3] && conv[3] == "convocacao" && ata[3] == "ata" && conv[4..] == ata[4..]
  {
    AttachmentPathSegments(a, token, "convocacao", filename);
    AttachmentPathSegments(a, token, "ata", filename);
  }

  // ---- Querysets ----

  /** The recipient rule of `visiveis_para`. */
  predicate AddressedTo(a: Assembleia, user: Id) {
    a.destinatarios == {} || user in a.destinatarios
  }

  /** `visiveis_para(user)`: nothing for an anonymous visitor, each addressed assembly once otherwise. */
  function VisiveisPara(asms: seq<Assembleia>, p: Principal): (r: seq<Assembleia>)
    ensures p.Anonymous? ==> r == []
    ensures p.Authenticated? ==> forall a :: a in r <==> a in asms && AddressedTo(a, p.user.id)
    ensures Distinct(asms) ==> Distinct(r)
  {
    match p
    case Anonymous => []
    case Authenticated(user) =>
      var r := Filter(asms, (a: Assembleia) => AddressedTo(a, user.id));
      if Distinct(asms) then
        FilterDistinct(asms, (a: Assembleia) => AddressedTo(a, user.id));
        r
      else r
  }

  function ByQuando(a: Assembleia): int {
    a.quando
  }

  function ByQuandoDesc(a: Assembleia): int {
    -a.quando
  }

  predicate IsFutura(a: Assembleia, now: int) {
    a.quando >= now
  }

  /** `futuras()`: from `now` on, soonest first. */
  function Futuras(asms: seq<Assembleia>, now: int): (r: seq<Assembleia>)
    ensures forall a :: a in r <==> a in asms && a.quando >= now
    ensures forall i, j :: 0 <= i < j < |r| ==> r[i].quando <= r[j].quando
  {
    SortOn(Filter(asms, (a: Assembleia) => IsFutura(a, now)), ByQuando)
  }

  /** `passadas()`: before `now`, latest first. */
  function Passadas(asms: seq<Assembleia>, now: int): (r: seq<Assembleia>)
    ensures forall a :: a in r <==> a in asms && a.quando < now
    ensures forall i, j :: 0 <= i < j < |r| ==> r[i].quando >= r[j].quando
  {
    SortOn(Filter(asms, (a: Assembleia) => !IsFutura(a, now)), ByQuandoDesc)
  }

  /** Upcoming and past together hold every assembly exactly once. */
  lemma FuturasPassadasPartition(asms: seq<Assembleia>, now: int)
    ensures multiset(Futuras(asms, now)) + multiset(Passadas(asms, now)) == multiset(asms)
  {
    FilterPartition(asms, (a: Assembleia) => IsFutura(a, now), (a: Assembleia) => !IsFutura(a, now));
  }

  /** `ja_ocorreu`. */
  predicate JaOcorreu(a: Assembleia, now: int) {
    a.quando <= now
  }

  /** An assembly at exactly `now` is both upcoming and marked as having taken place. */
  lemma NowIsUpcomingAndOccurred(asms: seq<Assembleia>, a: Assembleia, now: int)
    requires a in asms && a.quando == now
    ensures a in Futuras(asms, now) && JaOcorreu(a, now)
    ensures a !in Passadas(asms, now)
  {
  }
}
