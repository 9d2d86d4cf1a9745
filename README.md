# condox — a verified model of the reservation and portal rules

condox is a Django portal for a residential condominium. Residents (MORADOR) book shared amenities, see their charges and the condominium's assemblies. The manager (GESTOR) and the porter (PORTEIRO) each get their own dashboard. This project models the rules behind those pages in Dafny and proves what they promise:

- **Reservations.** The booking validator `Reserva.clean` checks six rules in a fixed order. The free-slot generator walks an area's opening window in 60-minute steps. The model also covers the booking, cancellation and history views and the two bulk status actions of the admin.
- **Charges.** A charge's computed status and colour, the "at least one recipient" validation, and the resident's charge list: visibility, status and due-date filters, ordering and pages of twelve.
- **Assemblies.** The attachment upload paths, `visiveis_para`, the upcoming/past split, and the list and detail pages with their visibility rule.
- **Portal.** The home page's role dispatch and each selection it shows, plus the admin dashboard's KPI counts, short lists and the debtor's display name.
- **Accounts.** The three roles and the role-group synchronisation run after a user is saved.

How the model represents things:

- **Time.** Instants are whole minutes of local time. The day is `m / 1440`, the time of day is `m % 1440`, and the weekday is `(day + 3) % 7` with 0 = Monday (day 0 is 1970-01-01, a Thursday). The deployment's zone keeps no daylight saving. The validator reads `inicio.time()` without converting to local time, and the model takes every instant as already local (see `clock.dfy`).
- **Tables.** Each table is a sequence of rows passed in as a parameter. Every queryset chain is a `Filter` / `SortBy` / `Take` over that sequence (`ordering.dfy`). A stable sort keeps rows with equal keys in input order.
- **State.** Operations that change state are methods on `ReservasModels.ReservaTable`: saving a booking, cancelling one, and the admin's bulk `update`. The same holds for the `user.groups` update, a method on `AccountsSignals.UserGroups`.
- **Request and clock inputs.** HTTP outcomes (403, 400, 404, redirects) are constructors of result datatypes. The current instant and the parse results of request texts are parameters.

Where the code and its documentation disagree, the model follows the code. `visiveis_para`'s docstring promises assemblies without recipients to every resident of the condominium, but the query shows them to every authenticated user. The `lista` view calls neither and uses its own rule. `AssembleiasViews.ListaIgnoresOpenAssemblies` exhibits the difference.

## Model

| member | source | states |
|---|---|---|
| AccountsModels.RoleFromValue | accounts/models.py:5-8 | a stored value read as a role choice is exactly that choice's value |
| AccountsModels.RoleValues | accounts/models.py:5-8 | each of the three choices reads back from its value, and only `MORADOR`, `PORTEIRO` and `GESTOR` name a choice |
| AccountsModels.NewUser | accounts/models.py:10 | a user created without a role has the MORADOR role and is not staff |
| AccountsModels.ExactlyOneRole | accounts/models.py:12-14 | each of `is_morador`/`is_porteiro`/`is_gestor` holds iff the role is that choice; for a valid role exactly one holds |
| AccountsSignals.SyncNoOp | accounts/signals.py:8-13 | an empty role, or a role with no group of that name, leaves the membership unchanged |
| AccountsSignals.SyncLeavesOneRoleGroup | accounts/signals.py:15-17 | after a sync the user is in exactly one of the three role groups, the role's own; other groups are as before |
| AccountsSignals.SyncKeepsOtherGroups | accounts/signals.py:15-16 | a group that is neither a role group nor the role is never added or removed |
| AccountsSignals.SyncIdempotent | accounts/signals.py:6-17 | syncing twice gives the same membership as syncing once |
| AccountsSignals.UserGroups.SyncUserGroup | accounts/signals.py:6-17 | the loop that removes each existing role group and then adds the role's group leaves exactly the synced membership |
| Condominios.UnidadeDoMorador | assembleias/views.py:19-23 | `get(morador=user)`: no unit iff no row names the user; `MultipleObjectsReturned` iff two different rows name the user; the one unit iff exactly one row does, and then it is the only such unit |
| Condominios.ResidentOf | portal/templatetags/admin_dashboard.py:84-85 | the resident of the first unit row carrying that key (none when that unit has no resident); an unknown key has none |
| Clock.AtRoundTrip | reservas/views.py:43-44 | combining a day and a time of day gives an instant whose date and time are that day and time |
| Clock.NextWeekday | reservas/models.py:50 | consecutive days have consecutive weekdays, Sunday (6) followed by Monday (0) |
| ReservasModels.NewReserva | reservas/models.py:29-38 | a new booking is unsaved, PENDENTE and does not allow sharing |
| ReservasModels.Conflicts | reservas/models.py:64-66 | the conflicts are exactly the rows of the same area, other than the booking itself, not cancelled and overlapping `inicio < fim && fim > inicio` |
| ReservasModels.OverlapTest | reservas/models.py:68-72 | the validator's last test fails iff some conflicting booking refuses sharing |
| ReservasModels.CheckOrderCoversAll | reservas/models.py:43-72 | the checking order lists each of the six rules once |
| ReservasModels.CleanReportsFirstViolation | reservas/models.py:43-72 | `clean` equals the independent reference "first rule broken, in checking order" |
| ReservasModels.CleanVerdicts | reservas/models.py:43-72 | a booking is accepted iff it breaks no rule; the i-th rule is reported iff it is broken and every earlier one is kept (so an invalid range is reported before anything else) |
| ReservasModels.CleanOverlapPolicy | reservas/models.py:63-72 | once the range, weekday, hour and date rules pass, acceptance holds iff every conflicting active booking allows sharing |
| ReservasModels.OwnSharingFlagIgnored | reservas/models.py:68-72 | the candidate's own `permite_compartilhar` never changes the verdict |
| ReservasModels.RevalidationAfterSave | reservas/models.py:64 | an accepted booking saved under a fresh key is accepted again against the table that now holds it (it never conflicts with itself) |
| ReservasModels.NoExclusiveOverlap | reservas/models.py:68-72 | under the earlier-shares invariant, two active bookings of one area that both refuse sharing never overlap |
| ReservasModels.AcceptedSaveKeepsEarlierShares | reservas/models.py:63-72 | saving a booking that `clean` accepted keeps "of two overlapping active bookings, the earlier one shares" |
| ReservasModels.WithStatus | reservas/admin.py:62 | `queryset.update(status=s)` changes the status of the selected rows only; length and order are kept |
| ReservasModels.WithStatusIdempotent | reservas/admin.py:60-68 | a status update changes no other field, and repeating it changes nothing |
| ReservasModels.CountSelectedIsSelection | reservas/admin.py:62 | with distinct keys, the count `update` reports is the number of selected keys that exist |
| ReservasModels.ApprovalCanBreakEarlierShares | reservas/admin.py:60-63 | approving with no transition check can revive a cancelled booking over an exclusive one and break the earlier-shares invariant |
| ReservasModels.ReservaTable.Insert | reservas/views.py:130 | `save()` of a new row appends it under the next key |
| ReservasModels.ReservaTable.UpdateStatus | reservas/admin.py:62 | the table becomes the status-updated rows and the count is the number of matched rows |
| ReservasViews.SlotsDisponiveis | reservas/views.py:21-68 | nothing for an excluded or blocked day; every returned slot is a 60-minute step from the window start, ending inside the window, not over when the day is today, and overlapping no active booking whatever its sharing flag; every such step is returned; slots are in ascending order and do not overlap |
| ReservasViews.InWindow | reservas/views.py:46-49 | the prefetched rows are exactly the active reservations of the area overlapping the opening window |
| ReservasViews.StepOffered | reservas/views.py:58-65 | a step inside the window of an open day is offered iff it is not over and no prefetched row overlaps it |
| ReservasViews.SlotWithinDay | reservas/views.py:38-44 | a step that ends inside the window starts at `hora_inicio or 00:00` plus 60·k and lies on that day within `hora_fim or 23:59` |
| ReservasViews.SlotKeepsDayRules | reservas/views.py:30-39 | booking such a step on an offered day breaks none of the range, weekday, hour and date rules of `clean` |
| ReservasViews.OfferedSlotPassesClean | reservas/views.py:47-66 | every slot the picker offers is accepted by `clean` against the same table |
| ReservasViews.SharedWindowHiddenButBookable | reservas/views.py:63-65 | a step covered only by bookings that allow sharing is not offered, yet `clean` accepts booking it |
| ReservasViews.FindArea | reservas/views.py:77 | the lookup finds an area with that key, or none exists |
| ReservasViews.ParseDate | reservas/views.py:15-19 | the parsed date, or the default when the text does not parse |
| ReservasViews.AreaDetail | reservas/views.py:75-92 | given `now` on the day `hoje`: not found iff no area has the key; otherwise the page shows the parsed date or today, whether it is today, `pode_reservar` (everyone but a porter) and exactly the offered slots |
| ReservasViews.Candidate | reservas/views.py:123-127 | the booking `agendar` builds is unsaved, the user's, APROVADA and does not share |
| ReservasViews.PorteiroRefusedFirst | reservas/views.py:96-100 | the request is forbidden iff the user is a porter, before the method, area or dates are looked at |
| ReservasViews.AgendarConfirms | reservas/views.py:94-137 | confirmed iff no porter, a POST, the area exists, both instants parse and `clean` accepts; the booking is the user's, APROVADA, not sharing; a refusal carries `clean`'s reason |
| ReservasViews.Agendar | reservas/views.py:94-137 | the outcome is the booking decision; the row is appended only when confirmed and the table is untouched otherwise; the earlier-shares invariant is kept |
| ReservasViews.FindReserva | reservas/views.py:143 | the lookup finds a booking with that key, or none exists |
| ReservasViews.CancelRules | reservas/views.py:139-157 | cancellation goes through iff a POST on an existing booking by its owner or a GESTOR before it starts; forbidden iff neither owner nor GESTOR; the current status plays no part |
| ReservasViews.CancelKeepsEarlierShares | reservas/views.py:156-157 | setting bookings to CANCELADA keeps the earlier-shares invariant |
| ReservasViews.CancelarReserva | reservas/views.py:139-160 | the outcome is the cancellation decision; on success only that booking's status changes, to CANCELADA, otherwise nothing changes |
| ReservasViews.CancelIdempotent | reservas/views.py:145-157 | cancelling again is accepted again and changes nothing more |
| ReservasViews.ResolveDate | reservas/views.py:164-178 | a parameter that parses is used and echoed; an absent, empty or malformed one falls back to the default and its ISO text |
| ReservasViews.Historico | reservas/views.py:162-188 | exactly min(matches, 100) of the user's own bookings starting on or after `de` and ending on or before `ate`, latest start first, the latest ones when more match, all of them when at most 100 match |
| ReservasViews.HistoricoDefaults | reservas/views.py:164-167 | without parameters the range is the thirty days up to today |
| ReservasAdmin.HhMm | reservas/admin.py:16-17 | `strftime("%H:%M")` is five characters with a colon in the middle |
| ReservasAdmin.HhMmRoundTrip | reservas/admin.py:16-17 | the `HH:MM` text reads back as the time it shows |
| ReservasAdmin.JanelaShowsSlotWindow | reservas/admin.py:14-18 | the "Janela" column is `hora_inicio or 00:00`, a dash, `hora_fim or 23:59`: exactly the window the slot generator walks |
| ReservasAdmin.DiasTodos | reservas/admin.py:20-24 | "Todos" is shown iff the allow-list is empty, and then every weekday is allowed |
| ReservasAdmin.DiasListed | reservas/admin.py:22-23 | a non-empty list shows its days in order, separated by ", ", followed by " (0=Seg..6=Dom)" |
| ReservasAdmin.BloqueiosQtd | reservas/admin.py:26-28 | the length of the blocked-date list, 0 when it is null; 0 iff the list is null or empty, and then no day is blocked |
| ReservasAdmin.BadgeColor | reservas/admin.py:52-54 | a status value outside the colour table gets `#94a3b8` |
| ReservasAdmin.BadgeColors | reservas/admin.py:32-36 | APROVADA, PENDENTE and CANCELADA get green, amber and grey, never the fallback |
| ReservasAdmin.AprovarReservas | reservas/admin.py:60-63 | every selected booking becomes APROVADA, cancelled ones included; nothing else changes; the count is the number of selected existing keys |
| ReservasAdmin.CancelarReservas | reservas/admin.py:65-68 | every selected booking becomes CANCELADA with no time or owner check; nothing else changes; the count as above; the earlier-shares invariant is kept |
| ReservasAdmin.AdminCancelIgnoresStart | reservas/admin.py:65-68 | the admin cancels a booking that has started, which the owner's own cancellation refuses |
| FinanceiroModels.StatusRules | financeiro/models.py:42-48 | PAGO iff paid, whatever the due day; VENCIDO iff unpaid and due before today; PENDENTE iff unpaid and due today or later |
| FinanceiroModels.StatusNamesDistinct | financeiro/models.py:42-48 | the three status names are different, so the name identifies the status |
| FinanceiroModels.StatusColorTable | financeiro/models.py:50-57 | green, amber, red for PAGO, PENDENTE, VENCIDO; the grey fallback is unreachable |
| FinanceiroModels.CleanNeedsOneDestination | financeiro/models.py:59-66 | valid iff a unit, a direct target, or (once saved) a recipient is set; an unsaved charge with no unit and no target is rejected |
| FinanceiroViews.VisibleCharges | financeiro/views.py:27-31 | the charges the user sees, each once: the resident of the charge's unit, its direct target, or one of its recipients |
| FinanceiroViews.JoinMultiplicityPositive | financeiro/views.py:27-31 | the join as written yields rows for a charge iff the charge is visible |
| FinanceiroViews.JoinRowsSameMembers | financeiro/views.py:27-31 | the join rows as written hold exactly the visible charges, only with repeats |
| FinanceiroViews.DuplicateChargeExample | financeiro/views.py:27-31 | a charge of the resident's unit with two other recipients is listed twice |
| FinanceiroViews.NormalizeStatusPadded | financeiro/views.py:23 | upper-casing and trimming maps a padded, any-case status name to the status name |
| FinanceiroViews.StatusFilterAgreesWithStatus | financeiro/views.py:34-39 | each of the three filters keeps exactly the charges with that computed status; any other value keeps every charge |
| FinanceiroViews.DateFilterNeverApplies | financeiro/views.py:41-53 | as written, no due-date bound ever applies and the echoed text is cleared |
| FinanceiroViews.DateBound | financeiro/views.py:41-53 | corrected: a text that parses bounds the due date and is echoed; an empty or malformed one applies no bound and echoes "" |
| FinanceiroViews.DateBoundDiffers | financeiro/views.py:41-53 | on a well-formed date the two differ |
| FinanceiroViews.NumPages | financeiro/views.py:58 | at least one page; the pages of 12 hold every row, and the last page is not empty unless the list is |
| FinanceiroViews.GetPage | financeiro/views.py:59 | the page shown is a valid page, and the requested one when it is valid |
| FinanceiroViews.PageItems | financeiro/views.py:58-59 | page n holds rows 12·(n−1) onward, at most 12, all 12 except on the last page |
| FinanceiroViews.EveryRowOnItsPage | financeiro/views.py:57-59 | row i of the list is on page i/12+1 at position i%12 |
| FinanceiroViews.ByStatus | financeiro/views.py:34-39 | the status step keeps exactly the rows passing the status test |
| FinanceiroViews.FromDay | financeiro/views.py:43-45 | the lower bound keeps exactly the rows due on or after it |
| FinanceiroViews.UntilDay | financeiro/views.py:49-51 | the upper bound keeps exactly the rows due on or before it |
| FinanceiroViews.Cobrancas | financeiro/views.py:27-53 | the filtered list holds exactly the visible charges passing the status and due-date filters |
| FinanceiroViews.OrderedPage | financeiro/views.py:55-59 | a page of the ordered list is ordered by due day then key, both descending, and holds listed rows |
| FinanceiroViews.PageRowsWanted | financeiro/views.py:27-59 | every row on a page is a visible charge that passes the filters, in order |
| FinanceiroViews.MinhasCobrancas | financeiro/views.py:11-68 | the step-by-step narrowing yields the page of the ordered filtered list the page parameter picks, with the normalised status and the echoed date texts |
| AssembleiasModels.SegmentsHaveNoSlash | assembleias/models.py:12-13 | neither the condominium segment nor the base segment holds a slash |
| AssembleiasModels.AttachmentPathSegments | assembleias/models.py:10-14 | the path splits into `assembleias`, the condominium key or `sem-cond`, the assembly key or `tmp-` and eight hex digits, the folder, then the file name |
| AssembleiasModels.AttachmentPathSplit | assembleias/models.py:10-14 | an attachment path splits at `/` into `assembleias`, the condominium segment, the base segment, the folder, then the file name's own segments |
| AssembleiasModels.AttachmentFolders | assembleias/models.py:10-21 | the convocation and the minutes of one assembly differ only in the folder, `convocacao` or `ata` |
| AssembleiasModels.VisiveisPara | assembleias/models.py:25-36 | nothing for an anonymous visitor; otherwise exactly the assemblies without recipients or naming the user, each once |
| AssembleiasModels.Futuras | assembleias/models.py:38-39 | exactly the assemblies from now on, soonest first |
| AssembleiasModels.Passadas | assembleias/models.py:41-42 | exactly the assemblies before now, latest first |
| AssembleiasModels.FuturasPassadasPartition | assembleias/models.py:38-42 | upcoming and past together hold every assembly exactly once |
| AssembleiasModels.NowIsUpcomingAndOccurred | assembleias/models.py:99-101 | an assembly at exactly now is upcoming and also marked as having taken place |
| AssembleiasViews.CondominioDoMorador | assembleias/views.py:11-26 | none for an anonymous user or a user with no unit; the failure iff the user is the resident of two different rows; otherwise the condominium of the user's only unit |
| AssembleiasViews.Visiveis | assembleias/views.py:40-50 | GESTOR and staff start from every assembly; the page fails iff another user's condominium lookup fails; no repeats |
| AssembleiasViews.ListaPage | assembleias/views.py:29-62 | the list fails exactly when the starting set does |
| AssembleiasViews.ListaContents | assembleias/views.py:40-56 | upcoming and past hold exactly the authorised assemblies on each side of now, each ordered, together every visible one once |
| AssembleiasViews.ListaDistinct | assembleias/views.py:50-56 | no assembly is listed twice |
| AssembleiasViews.ListaIgnoresOpenAssemblies | assembleias/views.py:43-50 | an assembly without recipients, visible by `visiveis_para`, is not listed to a user outside its condominium |
| AssembleiasViews.FindAssembleia | assembleias/views.py:71-74 | the lookup finds an assembly with that key, or none exists |
| AssembleiasViews.Detalhe | assembleias/views.py:65-91 | a shown assembly is the one with that key |
| AssembleiasViews.DetalheMatchesLista | assembleias/views.py:65-91 | the detail page shows an assembly iff the list shows it; an unauthorised key gets the same not-found as a missing one; the detail page fails iff the list does |
| AssembleiasViews.SeesAllSeesEverything | assembleias/views.py:40-41 | a GESTOR or staff user gets every assembly listed and every existing key shown |
| AssembleiasViews.ResidentSees | assembleias/views.py:43-50 | any other user is authorised iff named as a recipient or living in the assembly's condominium |
| PortalViews.UnpaidSplit | portal/views.py:61-66 | the overdue and pending counts are disjoint, add up to the unpaid charges, and agree with VENCIDO and PENDENTE |
| PortalViews.DispatchByRole | portal/views.py:52-95 | GESTOR, PORTEIRO and MORADOR each get their own dashboard; any other role value gets the default role's |
| PortalViews.AvisosRecentes | portal/views.py:58 | the six newest notices, newest first (all of them when there are at most six) |
| PortalViews.EmUsoAgora | portal/views.py:68-73 | exactly min(matches, 20) active bookings with `inicio <= agora < fim`, those ending first, ordered by end; all of them when at most 20 |
| PortalViews.ReservasProximas | portal/views.py:74-80 | exactly min(matches, 20) active bookings starting today or later and not in use, those starting first, ordered by start; all of them when at most 20 |
| PortalViews.UpcomingDisjointFromInUse | portal/views.py:68-80 | no booking is both in use and upcoming, and the two cover every active booking from today on |
| PortalViews.UpcomingKeepsEndedToday | portal/views.py:75-77 | a booking of today that has already ended still counts as upcoming |
| PortalViews.ReservasHoje | portal/views.py:85-90 | every active booking starting today, each as often as in the table, ordered by start |
| PortalViews.Minhas | portal/views.py:96-101 | exactly min(matches, 10) of the user's own active bookings that have not ended, those starting first, ordered by start; all of them when at most 10 |
| PortalViews.MeusLancamentos | portal/views.py:104-111 | exactly min(visible, 10) charges visible to the user, latest due first; all of them when at most 10; otherwise no visible charge left out is due later than a shown one |
| PortalViews.AssembleiasProximas | portal/views.py:116-121 | none without a condominium; otherwise assemblies of the user's condominium from now on, soonest first: all of them when at most 6, else 6, and none left out is sooner than a shown one |
| PortalViews.CancelaveisIds | portal/views.py:124 | exactly the keys of the listed bookings that have not started |
| PortalViews.CancelaveisMatchCancel | portal/views.py:124 | a listed booking is offered for cancelling iff `cancelar_reserva` would go through for the same user now; one that is not offered is in use |
| PortalViews.CancelButtonsMatchCancel | portal/views.py:124 | the same equivalence for any list of the user's own active, unfinished bookings taken from the table |
| PortalViews.HomePage | portal/views.py:44-125 | the role picks the dashboard; the resident's page fails iff the condominium lookup fails; each context entry is its selection (notices, counts, first 12 areas, in use, upcoming, today, mine, charges, assemblies, cancellable keys) |
| AdminDashboard.KpiEmUsoAgora | portal/templatetags/admin_dashboard.py:12-19 | the count of active bookings in use now: zero iff none is |
| AdminDashboard.KpiReservasHoje | portal/templatetags/admin_dashboard.py:22-29 | the count of active bookings starting today: zero iff none does |
| AdminDashboard.KpiChargesSplit | portal/templatetags/admin_dashboard.py:32-41 | the overdue and pending KPIs add up to the unpaid charges and count exactly the VENCIDO and the PENDENTE ones |
| AdminDashboard.EmUso | portal/templatetags/admin_dashboard.py:53-58 | the eight (or fewer) in-use bookings ending first, ordered by end |
| AdminDashboard.ReservasHojeLista | portal/templatetags/admin_dashboard.py:60-65 | the ten (or fewer) bookings of today starting first, ordered by start |
| AdminDashboard.InadimplentesLista | portal/templatetags/admin_dashboard.py:67-71 | the ten (or fewer) overdue charges due first, ordered by due day |
| AdminDashboard.PendentesLista | portal/templatetags/admin_dashboard.py:73-77 | the ten (or fewer) pending charges due first, ordered by due day |
| AdminDashboard.ChargeListsDisjoint | portal/templatetags/admin_dashboard.py:67-77 | no charge is on both lists, and every listed charge is unpaid |
| AdminDashboard.NomeDoMoradorPriority | portal/templatetags/admin_dashboard.py:80-86 | the direct target's name wins, then the unit's resident, and the dash appears exactly when neither names anyone |

## Left out

- HTTP, templates, flash messages and `login_required` are left out. Every view is a function or method from its inputs to an outcome datatype, and the views that require a login take an authenticated user.
- Time zones, `localtime`, `make_aware`, `strptime`, `fromisoformat` and `strftime` are library calls. The model takes local minutes and day numbers, and the parse result of each request text is a parameter (`None` when it does not parse). `ReservasAdmin.HhMm` writes out the only formatting whose text matters.
- The `uuid4` token of an unsaved assembly's path is a parameter, because it is random.
- The race between `clean()` and `save()` in `agendar`, and row-level atomicity, are concurrency. The model handles one sequential snapshot.
- A non-numeric key in the URL or the form makes the ORM raise `ValueError`. The model is not given such a key: every key is an `Id`.
- `_eventos_futuros` and the events on the resident's home page depend on guessed field names of another app. The galleries, `seed_roles`, the admin display glue of the other apps and the `areas_list` view are left out too.
- Decimal amounts, titles, descriptions and files are never computed on, so they are not fields of the model. A notice is only its key and creation instant.
- A many-to-many relation is a set of user keys. `Assembleia.condominio` is a required column and is modelled as optional, because the path functions test it.
- Database ordering among rows with equal sort keys is unspecified. The model keeps such rows in table order.
- Upper-casing covers ASCII letters only. Trimming strips the Latin-1 whitespace (the ASCII blanks, U+1C to U+1F, U+85 and U+A0); the other Unicode spaces that Python's `str.strip()` removes, such as U+2003, are not stripped. The status texts are ASCII.
- PortalViews.MeusLancamentos: modelled with each visible charge once. As written, the same three-way OR over the recipients repeats a charge (the second finding), which can also push other charges out of the ten shown.
- PortalViews.AssembleiasProximas: requires a condominium lookup that does not fail, because when it fails the page has already failed (`PortalViews.HomePage` returns `HomeFails`).
- FinanceiroViews.MinhasCobrancas: modelled with the corrected due-date bounds and with each visible charge once, as both findings intend. As written, no due-date bound applies and charges can repeat.
- ReservasModels.Area.diasPermitidos: the JSON column is taken to hold integers. The source stores any JSON list, and a list of strings such as `["0","1"]` would refuse every day in `clean` and in the slot generator; the model cannot express such entries.

## Findings

| source | as written | input that shows it | evidently intended | confidence | as-written member | corrected member |
|---|---|---|---|---|---|---|
| financeiro/views.py:41-53 | the bounds filter `vencimento__date__gte` / `vencimento__date__lte`; `vencimento` is a `DateField`, which has no `date` transform, so building the filter raises, the surrounding `except Exception` swallows it and clears the echoed text | `?de=2025-01-10` | charges due on or after (on or before) the given day, with the date echoed back in the form | not executed | FinanceiroViews.DateFilterNeverApplies | FinanceiroViews.DateBound |
| financeiro/views.py:27-31 | the three-way OR of `unidade__morador`, `morador_alvo` and `destinatarios` without `distinct()` joins the recipient table, so a charge visible through its unit or target yields one row per recipient | a charge of the resident's unit whose recipients are two other users | each visible charge listed once (as `visiveis_para` and `lista` do with `distinct()`) | not executed | FinanceiroViews.DuplicateChargeExample | FinanceiroViews.VisibleCharges |
