/**
 * "Minhas cobranças" (financeiro/views.py): the charges a resident sees, the
 * status and due-date filters, the ordering and the pages of twelve.
 * `hoje` is the local day; each date parameter comes with the result of
 * parsing it (`None` when it does not parse).
 */
module FinanceiroViews {
  import opened Wrappers
  import opened Text
  import opened Ordering
  import opened Condominios
  import opened FinanceiroModels

  // ---- Visibility ----

  /** The charge reaches `user` through the unit they live in. */
  predicate ViaUnit(l: Lancamento, units: seq<Unidade>, user: Id) {
    l.unidade.Some? && ResidentOf(units, l.unidade.value) == Some(user)
  }

  /** The unit's resident, the direct target, or one of the recipients. */
  predicate Visible(l: Lancamento, units: seq<Unidade>, user: Id) {
    ViaUnit(l, units, user) || l.moradorAlvo == Some(user) || user in l.destinatarios
  }

  /** The visible charges, each once. */
  function VisibleCharges(charges: seq<Lancamento>, units: seq<Unidade>, user: Id): (r: seq<Lancamento>)
    ensures forall l :: l in r <==> l in charges && Visible(l, units, user)
    ensures Distinct(charges) ==> Distinct(r)
  {
    var r := Filter(charges, (l: Lancamento) => Visible(l, units, user));
    if Distinct(charges) then
      FilterDistinct(charges, (l: Lancamento) => Visible(l, units, user));
      r
    else r
  }

  /**
   * The rows the three-way OR over the recipient join yields for one charge:
   * the join has one row per recipient (one row when there is none), and a
   * row passes when the unit or the target matches or its recipient is the user.
   */
  function JoinMultiplicity(l: Lancamento, units: seq<Unidade>, user: Id): nat {
    var direct := ViaUnit(l, units, user) || l.moradorAlvo == Some(user);
    if |l.destinatarios| == 0 then (if direct then 1 else 0)
    else if direct then |l.destinatarios|
    else if user in l.destinatarios then 1
    else 0
  }

  function Repeat(l: Lancamento, n: nat): (r: seq<Lancamento>)
    ensures |r| == n && forall x :: x in r ==> x == l
  {
    if n == 0 then [] else [l] + Repeat(l, n - 1)
  }

  /** The queryset as written: the join rows, without `distinct()`. */
  function JoinRows(charges: seq<Lancamento>, units: seq<Unidade>, user: Id): seq<Lancamento> {
    if |charges| == 0 then []
    else Repeat(charges[0], JoinMultiplicity(charges[0], units, user)) + JoinRows(charges[1..], units, user)
  }

  /** A charge yields join rows exactly when it is visible. */
  lemma JoinMultiplicityPositive(l: Lancamento, units: seq<Unidade>, user: Id)
    ensures JoinMultiplicity(l, units, user) > 0 <==> Visible(l, units, user)
  {
    if |l.destinatarios| == 0 {
      assert l.destinatarios == {};
    }
  }

  /** The join rows hold the same charges as the visible set; only the number of copies differs. */
  lemma {:induction false} JoinRowsSameMembers(charges: seq<Lancamento>, units: seq<Unidade>, user: Id)
    ensures forall l :: l in JoinRows(charges, units, user) <==> l in charges && Visible(l, units, user)
  {
    if |charges| > 0 {
      JoinRowsSameMembers(charges[1..], units, user);
      var c := charges[0];
      JoinMultiplicityPositive(c, units, user);
      var rep := Repeat(c, JoinMultiplicity(c, units, user));
      if |rep| > 0 {
        assert rep[0] == c;
      }
      assert forall l :: l in charges <==> l == c || l in charges[1..];
    }
  }

  /** A charge of the resident's unit with two other recipients is listed twice. */
  lemma DuplicateChargeExample()
    ensures var l := Lancamento(Some(1), Some(7), None, {2, 3}, 100, None);
      var units := [Unidade(7, 1, Some(5))];
      JoinRows([l], units, 5) == [l, l] && VisibleCharges([l], units, 5) == [l]
  {
    var l := Lancamento(Some(1), Some(7), None, {2, 3}, 100, None);
    var units := [Unidade(7, 1, Some(5))];
    assert |l.destinatarios| == 2;
    assert JoinMultiplicity(l, units, 5) == 2;
    assert Repeat(l, 2) == [l, l];
  }

  // ---- Status filter ----

  /** `request.GET.get("status", "").upper().strip()`. */
  function NormalizeStatus(raw: string): string {
    Strip(Upper(raw))
  }

  /** Surrounding blanks and letter case do not matter to the status parameter. */
  lemma NormalizeStatusPadded(pre: string, core: string, post: string, s: ChargeStatus)
    requires forall i :: 0 <= i < |pre| ==> IsSpace(pre[i])
    requires forall i :: 0 <= i < |post| ==> IsSpace(post[i])
    requires Upper(core) == StatusName(s)
    ensures NormalizeStatus(pre + core + post) == StatusName(s)
  {
    UpperConcat(pre + core, post);
    UpperConcat(pre, core);
    UpperKeepsSpaces(pre);
    UpperKeepsSpaces(post);
    assert Upper(pre + core + post) == pre + StatusName(s) + post;
    StatusNameUnpadded(s);
    StripPadded(pre, StatusName(s), post);
  }

  /** Status names neither start nor end with a blank. */
  lemma StatusNameUnpadded(s: ChargeStatus)
    ensures var n := StatusName(s); |n| > 0 && !IsSpace(n[0]) && !IsSpace(n[|n| - 1])
  {
    match s
    case Pago => assert StatusName(s) == "PAGO";
    case Vencido => assert StatusName(s) == "VENCIDO";
    case Pendente => assert StatusName(s) == "PENDENTE";
  }

  /** The status test the view applies for the normalised parameter; any other value applies none. */
  predicate StatusMatches(status: string, l: Lancamento, hoje: int) {
    if status == "PENDENTE" then l.pagoEm.None? && l.vencimento >= hoje
    else if status == "VENCIDO" then l.pagoEm.None? && l.vencimento < hoje
    else if status == "PAGO" then l.pagoEm.Some?
    else true
  }

  /** Each status filter selects exactly the charges whose computed status has that name. */
  lemma StatusFilterAgreesWithStatus(status: string, l: Lancamento, hoje: int)
    ensures forall s :: status == StatusName(s) ==> (StatusMatches(status, l, hoje) <==> Status(l, hoje) == s)
    ensures (forall s :: status != StatusName(s)) ==> StatusMatches(status, l, hoje)
  {
    StatusRules(l, hoje);
    assert StatusName(Pago) == "PAGO" && StatusName(Vencido) == "VENCIDO" && StatusName(Pendente) == "PENDENTE";
  }

  // ---- Due-date filter ----

  /**
   * One due-date bound as written: a text that parses reaches the filter
   * `vencimento__date__gte` (or `__lte`), but `vencimento` is a date field
   * (financeiro/models.py:31) and has no `date` transform, so building that
   * filter raises an error that the same handler swallows.  The pair is the
   * bound applied and the text echoed back.
   */
  function DateBoundAsWritten(raw: string, parsed: Option<int>): (Option<int>, string) {
    if raw == "" then (None, raw)
    else if parsed.None? then (None, "")
    else (None, "")
  }

  /** As written, no due-date bound ever applies and the echoed text is always cleared. */
  lemma DateFilterNeverApplies(raw: string, parsed: Option<int>)
    ensures DateBoundAsWritten(raw, parsed) == (None, "")
  {
  }

  /** The bound the view evidently means: a text that parses bounds `vencimento` and is echoed back. */
  function DateBound(raw: string, parsed: Option<int>): (r: (Option<int>, string))
    ensures raw != "" && parsed.Some? ==> r == (parsed, raw)
    ensures raw == "" || parsed.None? ==> r == (None, "")
  {
    if raw == "" then (None, raw)
    else if parsed.None? then (None, "")
    else (parsed, raw)
  }

  /** A well-formed date shows the difference between the two. */
  lemma DateBoundDiffers(d: int)
    ensures DateBoundAsWritten("2025-01-10", Some(d)) == (None, "")
    ensures DateBound("2025-01-10", Some(d)) == (Some(d), "2025-01-10")
  {
  }

  predicate WithinBounds(l: Lancamento, de: Option<int>, ate: Option<int>) {
    (de.None? || l.vencimento >= de.value) && (ate.None? || l.vencimento <= ate.value)
  }

  // ---- Ordering and pages ----

  /** `order_by("-vencimento", "-id")`. */
  function ByVencimentoDescIdDesc(l: Lancamento): Key {
    Key(-l.vencimento, if l.id.Some? then -(l.id.value as int) else 0)
  }

  const PerPage: nat := 12

  /** `Paginator(..., 12).num_pages`: an empty list still has one page. */
  function NumPages(count: nat): (n: nat)
    ensures n >= 1
    ensures (n - 1) * PerPage < count || (count == 0 && n == 1)
    ensures count <= n * PerPage
  {
    if count == 0 then 1 else (count + PerPage - 1) / PerPage
  }

  /**
   * `get_page(number)`: `requested` is the page parameter as an integer (`None`
   * when absent or not an integer, which shows page 1); a number out of range
   * shows the last page.
   */
  function GetPage(count: nat, requested: Option<int>): (n: nat)
    ensures 1 <= n <= NumPages(count)
    ensures requested.Some? && 1 <= requested.value <= NumPages(count) ==> n == requested.value
  {
    match requested
    case None => 1
    case Some(k) => if k < 1 || k > NumPages(count) then NumPages(count) else k
  }

  /** `page.object_list`. */
  function PageItems(list: seq<Lancamento>, n: nat): (r: seq<Lancamento>)
    requires 1 <= n <= NumPages(|list|)
    ensures |r| <= PerPage && (n - 1) * PerPage + |r| <= |list|
    ensures forall i :: 0 <= i < |r| ==> r[i] == list[(n - 1) * PerPage + i]
    ensures n < NumPages(|list|) ==> |r| == PerPage
  {
    var bottom := (n - 1) * PerPage;
    var top := if bottom + PerPage >= |list| then |list| else bottom + PerPage;
    list[bottom..top]
  }

  /** Every row of the list is on page `i / 12 + 1`, at position `i % 12`. */
  lemma EveryRowOnItsPage(list: seq<Lancamento>, i: nat)
    requires i < |list|
    ensures 1 <= i / PerPage + 1 <= NumPages(|list|)
    ensures var page := PageItems(list, i / PerPage + 1);
      i % PerPage < |page| && page[i % PerPage] == list[i]
  {
  }

  // ---- The view ----

  datatype CobrancasPage = CobrancasPage(
    items: seq<Lancamento>, number: nat, numPages: nat,
    status: string, de: string, ate: string)

  /** Everything the list keeps of one charge. */
  predicate Wanted(l: Lancamento, units: seq<Unidade>, user: Id, hoje: int, status: string,
                   de: Option<int>, ate: Option<int>) {
    Visible(l, units, user) && StatusMatches(status, l, hoje) && WithinBounds(l, de, ate)
  }

  /** The status step: one of the three filters, or none. */
  function ByStatus(qs: seq<Lancamento>, status: string, hoje: int): (r: seq<Lancamento>)
    ensures forall l :: l in r <==> l in qs && StatusMatches(status, l, hoje)
  {
    if status == "PENDENTE" then Filter(qs, (l: Lancamento) => l.pagoEm.None? && l.vencimento >= hoje)
    else if status == "VENCIDO" then Filter(qs, (l: Lancamento) => l.pagoEm.None? && l.vencimento < hoje)
    else if status == "PAGO" then Filter(qs, (l: Lancamento) => l.pagoEm.Some?)
    else qs
  }

  /** A lower due-date bound, when there is one. */
  function FromDay(qs: seq<Lancamento>, de: Option<int>): (r: seq<Lancamento>)
    ensures forall l :: l in r <==> l in qs && (de.None? || l.vencimento >= de.value)
  {
    if de.Some? then Filter(qs, (l: Lancamento) => l.vencimento >= de.value) else qs
  }

  /** An upper due-date bound, when there is one. */
  function UntilDay(qs: seq<Lancamento>, ate: Option<int>): (r: seq<Lancamento>)
    ensures forall l :: l in r <==> l in qs && (ate.None? || l.vencimento <= ate.value)
  {
    if ate.Some? then Filter(qs, (l: Lancamento) => l.vencimento <= ate.value) else qs
  }

  /** The filtered charges, before ordering, in the order the view narrows them. */
  function Cobrancas(charges: seq<Lancamento>, units: seq<Unidade>, user: Id, hoje: int, status: string,
                     de: Option<int>, ate: Option<int>): (r: seq<Lancamento>)
    ensures forall l :: l in r <==> l in charges && Wanted(l, units, user, hoje, status, de, ate)
  {
    UntilDay(FromDay(ByStatus(VisibleCharges(charges, units, user), status, hoje), de), ate)
  }

  /** The page's rows are rows of the list. */
  lemma PageRowsFromList(list: seq<Lancamento>, n: nat)
    requires 1 <= n <= NumPages(|list|)
    ensures forall l :: l in PageItems(list, n) ==> l in list
  {
    var r := PageItems(list, n);
    forall l | l in r ensures l in list {
      var i :| 0 <= i < |r| && r[i] == l;
      assert list[(n - 1) * PerPage + i] == l;
    }
  }

  /** A page of the ordered list holds listed rows, in order. */
  lemma OrderedPage(list: seq<Lancamento>, n: nat)
    requires 1 <= n <= NumPages(|list|)
    ensures var page := PageItems(SortBy(list, ByVencimentoDescIdDesc), n);
      SortedBy(page, ByVencimentoDescIdDesc) && forall l :: l in page ==> l in list
  {
    var ordered := SortBy(list, ByVencimentoDescIdDesc);
    var page := PageItems(ordered, n);
    PageRowsFromList(ordered, n);
    forall l | l in ordered ensures l in list {
      assert multiset(ordered)[l] > 0;
    }
    forall i, j | 0 <= i < j < |page| ensures KeyLe(ByVencimentoDescIdDesc(page[i]), ByVencimentoDescIdDesc(page[j])) {
      assert page[i] == ordered[(n - 1) * PerPage + i] && page[j] == ordered[(n - 1) * PerPage + j];
    }
  }

  /** Every row on a page of the list is a visible charge that passes the filters. */
  lemma PageRowsWanted(charges: seq<Lancamento>, units: seq<Unidade>, user: Id, hoje: int, status: string,
                       de: Option<int>, ate: Option<int>, n: nat)
    requires 1 <= n <= NumPages(|Cobrancas(charges, units, user, hoje, status, de, ate)|)
    ensures var page := PageItems(SortBy(Cobrancas(charges, units, user, hoje, status, de, ate), ByVencimentoDescIdDesc), n);
      SortedBy(page, ByVencimentoDescIdDesc)
      && forall l :: l in page ==> l in charges && Wanted(l, units, user, hoje, status, de, ate)
  {
    OrderedPage(Cobrancas(charges, units, user, hoje, status, de, ate), n);
  }

  /** `minhas_cobrancas`, with the due-date bounds the view evidently means. */
  method MinhasCobrancas(charges: seq<Lancamento>, units: seq<Unidade>, user: Id, hoje: int,
                         statusRaw: string, deRaw: string, deParsed: Option<int>,
                         ateRaw: string, ateParsed: Option<int>, page: Option<int>)
    returns (p: CobrancasPage)
    ensures p.status == NormalizeStatus(statusRaw)
    ensures p.de == DateBound(deRaw, deParsed).1 && p.ate == DateBound(ateRaw, ateParsed).1
    ensures var ordered := SortBy(Cobrancas(charges, units, user, hoje, p.status,
                                            DateBound(deRaw, deParsed).0, DateBound(ateRaw, ateParsed).0),
                                  ByVencimentoDescIdDesc);
      p.numPages == NumPages(|ordered|) && p.number == GetPage(|ordered|, page)
      && p.items == PageItems(ordered, p.number)
    ensures |p.items| <= PerPage && 1 <= p.number <= p.numPages
    ensures SortedBy(p.items, ByVencimentoDescIdDesc)
    ensures forall l :: l in p.items ==>
      l in charges && Wanted(l, units, user, hoje, p.status, DateBound(deRaw, deParsed).0, DateBound(ateRaw, ateParsed).0)
  {
    var status := NormalizeStatus(statusRaw);
    var deStr := deRaw;
    var ateStr := ateRaw;

    var qs := VisibleCharges(charges, units, user);
    qs := ByStatus(qs, status, hoje);
    if deRaw != "" {
      if deParsed.Some? {
        qs := FromDay(qs, deParsed);
      } else {
        deStr := "";
      }
    }
    if ateRaw != "" {
      if ateParsed.Some? {
        qs := UntilDay(qs, ateParsed);
      } else {
        ateStr := "";
      }
    }
    assert qs == Cobrancas(charges, units, user, hoje, status, DateBound(deRaw, deParsed).0, DateBound(ateRaw, ateParsed).0);

    var ordered := SortBy(qs, ByVencimentoDescIdDesc);
    var number := GetPage(|ordered|, page);
    var items := PageItems(ordered, number);
    PageRowsWanted(charges, units, user, hoje, status, DateBound(deRaw, deParsed).0, DateBound(ateRaw, ateParsed).0, number);
    p := CobrancasPage(items, number, NumPages(|ordered|), status, deStr, ateStr);
  }
}
