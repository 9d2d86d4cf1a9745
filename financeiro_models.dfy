/**
 * Charges (financeiro/models.py): who a charge is addressed to, its status on a
 * given day, the status colour and the "at least one recipient" validation.
 * Dates are day numbers; amounts are never computed on and are left out.
 */
module FinanceiroModels {
  import opened Wrappers
  import opened Condominios

  /** A `Lancamento` row; `destinatarios` is the many-to-many recipient set. */
  datatype Lancamento = Lancamento(
    id: Option<Id>,
    unidade: Option<Id>,
    moradorAlvo: Option<Id>,
    destinatarios: set<Id>,
    vencimento: int,
    pagoEm: Option<int>
  )

  /** The computed `status`. */
  datatype ChargeStatus = Pago | Vencido | Pendente

  function StatusName(s: ChargeStatus): string {
    match s
    case Pago => "PAGO"
    case Vencido => "VENCIDO"
    case Pendente => "PENDENTE"
  }

  /** `Lancamento.status` on the local day `hoje`. */
  function Status(l: Lancamento, hoje: int): ChargeStatus {
    if l.pagoEm.Some? then Pago
    else if l.vencimento < hoje then Vencido
    else Pendente
  }

  /** A paid charge is PAGO whatever its due day; an unpaid one is overdue exactly when due before today. */
  lemma StatusRules(l: Lancamento, hoje: int)
    ensures Status(l, hoje) == Pago <==> l.pagoEm.Some?
    ensures Status(l, hoje) == Vencido <==> l.pagoEm.None? && l.vencimento < hoje
    ensures Status(l, hoje) == Pendente <==> l.pagoEm.None? && l.vencimento >= hoje
  {
  }

  /** The status names are distinct, so the stored text identifies the status. */
  lemma StatusNamesDistinct(a: ChargeStatus, b: ChargeStatus)
    ensures StatusName(a) == StatusName(b) <==> a == b
  {
  }

  /** The colour table of `status_color`. */
  const StatusColors: map<string, string> :=
    map["PAGO" := "#16a34a", "PENDENTE" := "#f59e0b", "VENCIDO" := "#ef4444"]

  const ColorFallback: string := "#64748b"

  /** `status_color`: the table entry of the status name, grey when there is none. */
  function StatusColor(l: Lancamento, hoje: int): string {
    var name := StatusName(Status(l, hoje));
    if name in StatusColors then StatusColors[name] else ColorFallback
  }

  /** Green, amber and red for paid, pending and overdue; the grey fallback never shows. */
  lemma StatusColorTable(l: Lancamento, hoje: int)
    ensures StatusColor(l, hoje) == match Status(l, hoje)
      case Pago => "#16a34a"
      case Pendente => "#f59e0b"
      case Vencido => "#ef4444"
    ensures StatusColor(l, hoje) != ColorFallback
  {
  }

  /** `Lancamento.clean`. */
  datatype CleanResult = Valid | NoRecipient

  /**
   * A unit, a direct target, or (once saved, since the many-to-many rows exist
   * only then) a recipient is enough.
   */
  function CleanLancamento(l: Lancamento): CleanResult {
    var hasUnit := l.unidade.Some?;
    var hasDirect := l.moradorAlvo.Some?;
    var hasMany := if l.id.Some? then |l.destinatarios| > 0 else false;
    if !(hasUnit || hasDirect || hasMany) then NoRecipient else Valid
  }

  /** Any one of the three destinations is enough; recipients count only on a saved charge. */
  lemma CleanNeedsOneDestination(l: Lancamento)
    ensures CleanLancamento(l) == Valid <==>
      l.unidade.Some? || l.moradorAlvo.Some? || (l.id.Some? && l.destinatarios != {})
    ensures l.id.None? && l.unidade.None? && l.moradorAlvo.None? ==> CleanLancamento(l) == NoRecipient
  {
    if l.id.Some? && l.destinatarios != {} {
      var d :| d in l.destinatarios;
      assert |l.destinatarios| > 0;
    }
  }
}
