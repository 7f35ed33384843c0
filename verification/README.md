# Retention portal — a Dafny model of the request workflow

This project models the core of a Django retention portal. Commercial staff
file *solicitudes* (requests to retain or deactivate a client's circuits).
The portal routes each request to a retention executive (*ejecutivo*) by
round-robin and to a randomly drawn analyst (*analista*). It then tracks the
request's status (*estado*) through a catalog of statuses and approval levels
(*niveles*).

The database is an immutable `Store`: one `Table<T>` per model class. Each
table is a map from keys to rows plus the next key its autoincrement
sequence will issue. The invariant `Wf` states the constraints the schema
enforces:

- every foreign key points at a row;
- the RUC and the staff e-mails are unique;
- a (request, circuit) pair is linked at most once.

Every view and command is a pure function from a store (and its inputs) to
either a new store or an error. A transaction that fails returns no store, so
the caller keeps the one it had.

The modules follow the program:

| file | module | models |
|---|---|---|
| wrappers.dfy | `Wrappers` | `Option`, `Result` |
| tables.dfy | `Tables` | autoincrement tables; `.get()`, `get_or_create`, `filter`; ascending key order |
| access.dfy | `Access` | the `permission_required` decorator |
| models.dfy | `Models` | the entities, the store, `Wf`, PROTECT/CASCADE deletion |
| integrity.dfy | `ModelsIntegrity` | deletions and additions keep `Wf` |
| allocator.dfy | `RoundRobin` | `get_next_ejecutivo` and its fairness |
| creation.dfy | `Creation` | `nueva_solicitud_view` |
| listing.dfy | `Listing` | `lista_solicitudes_view` |
| detail.dfy | `Detail` | `solicitud_detalle_view` and its automatic status change |
| personnel.dfy | `Personnel` | `_get_user_key`, `gestion_personal_view` |
| seed.dfy | `Seed` | the `seed_db` command |
| api.dfy | `Api` | `search_clientes`, `get_circuitos_por_cliente` |
| migration.dfy | `Migration` | the wipe, the RUC map, the circuit partition and the bulk insert of `migrar_con_pandas` |

Parameters stand in for the outside world:

- the clock becomes a `Time` argument (`now`);
- `random.choice` becomes a `draw: nat` that indexes the active analysts in key order;
- the legacy database's query results become sequences of rows.

Four behaviours of the code worth knowing:

- **Creation checks.** Creation first checks that a client field is present, then the circuits, then the date. An unknown client key is reported only afterwards, with the same "missing catalogs" message as a missing 'Registrado' or order-1 row.
- **Detail view.** When the 'En Análisis' row is missing, the detail view does not fail. It queues an error message and shows the page with nothing changed.
- **History author.** The status-history row records the viewer's username.
- **Schema gap.** pages.py:15-25 imports `ConfiguracionAsignacion`, which models.py does not define, so as written pages.py fails to import and none of its views is reachable. Even with that import fixed, `Solicitud.objects.create(..., fecha_solicitud_baja=..., usuario_creador=...)` at pages.py:108-118 would raise `TypeError`, because models.py declares neither field; the views also read and write a `last_ejecutivo_id` configuration row that has no table. The model follows the schema the views intend: `Solicitud` has both fields and the store holds the cursor.

## Model

| member | source | states |
|---|---|---|
| Access.CheckPermission | portal_retenciones/decorators.py:11-21 | a superuser is admitted whatever the permission; a non-superuser is admitted exactly when holding it; anyone else gets `PermissionDenied`, and the answer is never false |
| Access.CheckReadsOnlyFlagAndPerm | portal_retenciones/decorators.py:11-21 | two users who agree on the superuser flag and on holding the permission get the same decision |
| Models.EmptyStore | portal_retenciones/models.py:6-108 | the empty database satisfies every constraint |
| Models.DeleteSolicitud | portal_retenciones/models.py:80-104 | deleting a request removes it and every comment, status-history, assignment-history and circuit-link row of it, keeps all other such rows unchanged, and touches no other table or the cursor |
| Models.DeleteCircuito | portal_retenciones/models.py:104 | deleting a circuit removes it and exactly its request links, keeps every other link unchanged and both key sequences, and touches no other table |
| Models.DeleteCliente | portal_retenciones/models.py:17 | deleting a client fails exactly when a request points at it (PROTECT); otherwise the client goes, its circuits go with it (CASCADE) and so do their request links, every other circuit and link stays unchanged, the key sequences are kept, and no other table is touched |
| Models.DeleteEjecutivo | portal_retenciones/models.py:66-89 | deleting an executive fails exactly when a request or an assignment-history row points at it; otherwise only that row goes |
| Models.DeleteAnalista | portal_retenciones/models.py:67 | deleting an analyst fails exactly when a request points at it; otherwise only that row goes |
| Models.DeleteEstado | portal_retenciones/models.py:68-97 | deleting a status fails exactly when a request is in it or a status-history row names it; otherwise only that row goes |
| Models.DeleteNivel | portal_retenciones/models.py:69 | deleting a level fails exactly when a request is at it; otherwise only that row goes |
| ModelsIntegrity.SubTablesKeepUniqueness | portal_retenciones/models.py:7-108 | removing rows keeps RUC, e-mail and (request, circuit) uniqueness |
| ModelsIntegrity.DeleteSolicitudKeepsWf | portal_retenciones/models.py:80-104 | the CASCADE of a request deletion leaves no dangling foreign key |
| ModelsIntegrity.DeleteCircuitoKeepsWf | portal_retenciones/models.py:104 | a circuit deletion leaves no dangling foreign key |
| ModelsIntegrity.DeleteClienteKeepsWf | portal_retenciones/models.py:17 | a permitted client deletion, with its CASCADE, leaves no dangling foreign key |
| ModelsIntegrity.DeleteEjecutivoKeepsWf | portal_retenciones/models.py:66-89 | a permitted executive deletion leaves no dangling foreign key |
| ModelsIntegrity.DeleteAnalistaKeepsWf | portal_retenciones/models.py:67 | a permitted analyst deletion leaves no dangling foreign key |
| ModelsIntegrity.DeleteEstadoKeepsWf | portal_retenciones/models.py:68-97 | a permitted status deletion leaves no dangling foreign key |
| ModelsIntegrity.DeleteNivelKeepsWf | portal_retenciones/models.py:69 | a permitted level deletion leaves no dangling foreign key |
| ModelsIntegrity.ParentsGrowKeepForeignKeys | portal_retenciones/models.py:65-69 | adding parent rows, without touching the child tables, keeps every foreign key valid |
| RoundRobin.Pick | portal_retenciones/views/pages.py:51-56 | the choice is active and is the least active key above the cursor, or the least active key when none is above |
| RoundRobin.NextEjecutivo | portal_retenciones/views/pages.py:37-62 | it fails exactly when no executive is active, and then returns no store, so the cursor is unchanged; otherwise the choice follows the rotation rule from the stored cursor (0 when absent), and the cursor is the only change, set to the chosen key |
| RoundRobin.NextInRotationUnique | portal_retenciones/views/pages.py:51-56 | the rotation rule admits at most one executive |
| RoundRobin.NewcomerServedNext | portal_retenciones/views/pages.py:52 | an active key that lies above the cursor and below every other active key above it is chosen next |
| RoundRobin.RuleAfter | portal_retenciones/views/pages.py:51-56 | after the executive at position j of the ascending order, the rule selects position j + 1, wrapping to the first after the last |
| RoundRobin.RuleFromBelow | portal_retenciones/views/pages.py:47-52 | from a cursor below every active key (0 on first use), the rule selects the smallest |
| RoundRobin.AllocationStep | portal_retenciones/views/pages.py:59-60 | one allocation leaves the active set as it was and makes the chosen key the cursor |
| RoundRobin.StepKeepsRotating | portal_retenciones/views/pages.py:51-60 | if the next allocation serves position m of the cyclic order, the one after it serves position m + 1 |
| RoundRobin.RotationContinues | portal_retenciones/views/pages.py:37-62 | k successive allocations walk the ascending order cyclically from the current position |
| RoundRobin.CycleIsMod | portal_retenciones/views/pages.py:51-56 | the position counter of the rotation, computed by repeated subtraction, is the remainder of `i` divided by `n` |
| RoundRobin.RoundRobinFair | portal_retenciones/views/pages.py:37-62 | from a fresh cursor, the i-th of any k successive allocations returns e(1 + i mod N), for active keys e1 < ... < eN |
| RoundRobin.FirstRoundThenWrap | portal_retenciones/views/pages.py:39-56 | N + 1 allocations from cursor 0 return e1, ..., eN and then e1 again, all of them active |
| Creation.DrawAnalista | portal_retenciones/views/pages.py:105 | the draw always yields an active analyst |
| Creation.EveryActiveAnalistaCanBeDrawn | portal_retenciones/views/pages.py:105 | every active analyst is a possible outcome of the draw |
| Creation.LinkAll | portal_retenciones/views/pages.py:121 | linking keeps the old association rows and adds only rows for this request, each for one of the given circuits |
| Creation.LinkAllCovers | portal_retenciones/views/pages.py:121 | every given circuit gets a new association row |
| Creation.LinkAllDistinct | portal_retenciones/views/pages.py:121 | distinct circuit keys give new rows with distinct circuits |
| Creation.NuevaSolicitud | portal_retenciones/views/pages.py:68-138 | the gate and then the form checks fail in source order; once the form is complete and the client exists, a missing 'Registrado' or order-1 row gives the missing-catalogs error and a duplicated one the duplicate error, then no active executive, no active analyst and an unknown circuit give their own errors in that order; each error occurs only when its cause holds; creation succeeds exactly when the gate admits the user, the form is complete, the client, the catalog rows, an active executive and analyst, and every chosen circuit exist |
| Creation.CreationWrites | portal_retenciones/views/pages.py:95-118 | a created request is the one new row: it is in status 'Registrado' at level order 1 and automatically assigned; its creator is the acting user, it carries the form's client, text and date, and it is stamped with `now`; its executive is the round-robin choice, now the cursor, and its analyst is active |
| Creation.CreationLinksSelected | portal_retenciones/views/pages.py:121 | the new request's circuits are exactly the distinct keys the form selected |
| Creation.CreationLeavesRestAlone | portal_retenciones/views/pages.py:75-121 | creation changes only the request table, the association table (adding rows, each of which links the new request and is stamped with `now`) and the cursor |
| Creation.CreationKeepsWf | portal_retenciones/views/pages.py:108-121 | creation keeps every constraint, including each (request, circuit) pair being linked once |
| Listing.Visible | portal_retenciones/views/pages.py:151-176 | the warning is raised exactly for a retention executive who is not commercial, not a superuser and has no executive row, and then nothing is shown |
| Listing.SuperuserSeesAll | portal_retenciones/views/pages.py:151-154 | a superuser sees every request, whatever their groups |
| Listing.CommercialSeesOwn | portal_retenciones/views/pages.py:157-161 | a commercial executive who is not a superuser sees exactly the requests they created, whatever their other groups |
| Listing.RetentionSeesAssigned | portal_retenciones/views/pages.py:158-175 | a retention executive who is neither commercial nor a superuser sees exactly the requests assigned to the executive row under their key, and nothing without one |
| Listing.OthersSeeAll | portal_retenciones/views/pages.py:151-164 | a user in neither executive group sees every request |
| Listing.RetentionViewsPartition | portal_retenciones/views/pages.py:165-171 | two retention executives with different user keys see disjoint sets, each exactly the requests assigned to them |
| Listing.OrderByNewest | portal_retenciones/views/pages.py:179 | the output lists each given request exactly once, newest first |
| Listing.ListaSolicitudes | portal_retenciones/views/pages.py:147-185 | it is refused exactly when the gate refuses; otherwise it lists each request at most once, newest first, with the warning flag of the filter, and the set listed is, by role: every request for a superuser; for a commercial executive (tested first) exactly the requests they created; for a retention executive exactly the requests assigned to the executive row under their key, none without one; for anyone else every request |
| Detail.VerDetalle | portal_retenciones/views/pages.py:191-227 | the gate, then a missing request, fail, and for an admitted user and an existing request the page is always shown; a request not in 'Registrado' is left alone; one in 'Registrado' moves exactly when a single 'En Análisis' row exists, and a missing one only gives the configuration message; only a move changes the store |
| Detail.FirstViewMoves | portal_retenciones/views/pages.py:202-220 | the move writes one new status-history row (from 'Registrado' to 'En Análisis', `now`, the viewer's username) and changes nothing of the request but its status |
| Detail.SecondViewAddsNothing | portal_retenciones/views/pages.py:202 | viewing a moved request again leaves the store unchanged |
| Detail.DetailKeepsWf | portal_retenciones/views/pages.py:202-220 | viewing keeps every constraint |
| Detail.StatusChangeKeepsWf | portal_retenciones/views/pages.py:210-220 | logging a move to an existing status and updating the request keeps every constraint |
| Personnel.UserKey | portal_retenciones/views/pages.py:29-32 | the key is the user's e-mail when present, else the username followed by '@temp.local'; it is never empty |
| Personnel.PlaceholdersDistinct | portal_retenciones/views/pages.py:32 | two users without e-mail get the same placeholder exactly when their usernames agree |
| Personnel.AsignarEjecutivo | portal_retenciones/views/pages.py:279-282 | an existing row under the user's key is kept untouched; otherwise an active row with the user's name and key is inserted under it; it fails exactly when no row exists and that e-mail is taken |
| Personnel.AsignarAnalista | portal_retenciones/views/pages.py:288-291 | the same for the analysts |
| Personnel.GestionPersonal | portal_retenciones/views/pages.py:262-304 | the gate and a missing user fail first; for an admitted actor and an existing user, a removal is refused exactly when a request (or, for an executive, an assignment-history row) points at the role row and otherwise deletes exactly the row under that key; an assignment keeps an existing row and otherwise adds the active row with the user's name and key, failing exactly when that e-mail is taken; every refusal after the user lookup is reported as an integrity error; any other action changes nothing; each action touches only its own staff table |
| Personnel.ActionShowsOnRoster | portal_retenciones/views/pages.py:278-295 | after a successful assign the role is listed for the user, after a removal it is not, and the other role is unchanged |
| Personnel.AssignIdempotent | portal_retenciones/views/pages.py:279-291 | repeating an assignment leaves the store as the first one made it |
| Personnel.AsignarEjecutivoKeepsWf | portal_retenciones/views/pages.py:279-282 | a new executive row keeps every constraint |
| Personnel.AsignarAnalistaKeepsWf | portal_retenciones/views/pages.py:288-291 | a new analyst row keeps every constraint |
| Personnel.PersonnelKeepsWf | portal_retenciones/views/pages.py:278-295 | every successful action keeps every constraint |
| Seed.SeedTable | portal_retenciones/management/commands/seed_db.py:34-40 | one loop keeps every existing row as it was and adds only catalog entries |
| Seed.SeedCompletes | portal_retenciones/management/commands/seed_db.py:34-40 | the loop runs to the end exactly when no entry's name already matched several rows |
| Seed.SeedStep | portal_retenciones/management/commands/seed_db.py:35 | after one `get_or_create` the entry's name matches exactly one row |
| Seed.SeedLeavesOneEach | portal_retenciones/management/commands/seed_db.py:34-40 | after a completed loop every entry's name matches exactly one row |
| Seed.SeedIdempotent | portal_retenciones/management/commands/seed_db.py:34-40 | a loop over entries that each match one row changes nothing |
| Seed.SeedDb | portal_retenciones/management/commands/seed_db.py:30-45 | the command changes only the status and level tables, runs the statuses first, and stops before the levels when the status loop raised |
| Seed.CatalogNamesDistinct | portal_retenciones/management/commands/seed_db.py:13-25 | the five status names and the three level names are distinct |
| Seed.SeedDbCompletes | portal_retenciones/management/commands/seed_db.py:13-40 | without duplicated catalog names the command completes and each of the five statuses and three levels matches exactly one row |
| Seed.SeedDbIdempotent | portal_retenciones/management/commands/seed_db.py:30-45 | running the command twice is the same as running it once |
| Seed.SeedEnablesCreation | portal_retenciones/management/commands/seed_db.py:13-25 | on empty catalogs, the command leaves exactly one 'Registrado' status and exactly one level of order 1 |
| Seed.FirstLevelUnique | portal_retenciones/management/commands/seed_db.py:21-25 | among the seeded levels only the first has order 1 |
| Seed.SeedDbKeepsWf | portal_retenciones/management/commands/seed_db.py:30-45 | seeding keeps every constraint |
| Api.ContainsIsInfix | portal_retenciones/views/api.py:19 | the containment test holds exactly when the query occurs at some position of the name |
| Api.FirstMatches | portal_retenciones/views/api.py:19 | the result is the first min(10, n) of the n matching keys in ascending order |
| Api.SearchClientes | portal_retenciones/views/api.py:9-28 | a missing or empty query gives no results; at most ten results; each is {key, business name, RUC} of a matching client; ascending keys |
| Api.SearchReturnsFirstMatches | portal_retenciones/views/api.py:19 | a matching client is left out only when ten results with smaller keys were returned |
| Api.SearchMatchesAreInfixes | portal_retenciones/views/api.py:19 | every result's folded name contains the folded query as a substring |
| Api.QueryCaseIrrelevant | portal_retenciones/views/api.py:19 | queries that agree after case folding match the same names |
| Api.CircuitosPorCliente | portal_retenciones/views/api.py:34-54 | exactly the client's circuits, each once, ascending, projected to {key, name, service type, monthly fee} |
| Api.UnknownClienteHasNoCircuitos | portal_retenciones/views/api.py:40-58 | a key without a client row gets an empty list, not the error branch |
| Api.CircuitosDisjoint | portal_retenciones/views/api.py:42 | the lists for two different clients share no circuit |
| Migration.WipeSolicitudes | portal_retenciones/management/commands/migrar_con_pandas.py:41 | after deleting the requests no client is referenced |
| Migration.Wipe | portal_retenciones/management/commands/migrar_con_pandas.py:41-43 | the three deletes empty the clients, circuits, requests and their dependants, keep the key sequences, and leave staff and catalogs alone |
| Migration.WipeKeepsWf | portal_retenciones/management/commands/migrar_con_pandas.py:41-43 | the wipe keeps every constraint, so its last delete cannot be refused |
| Migration.ImportStep | portal_retenciones/management/commands/migrar_con_pandas.py:58-66 | one `get_or_create` by RUC keeps RUCs unique and the map in agreement with the table; it inserts exactly when the RUC was absent, and then with that row's RUC, business name and status and the import time as the registration date (`auto_now_add`) |
| Migration.ImportStepCovers | portal_retenciones/management/commands/migrar_con_pandas.py:58-66 | after one step every client row is still the one its RUC maps to |
| Migration.ImportInvariant | portal_retenciones/management/commands/migrar_con_pandas.py:55-66 | with unique RUCs the loop never raises, keeps RUCs unique and the map in agreement, and keeps earlier rows |
| Migration.ImportKeys | portal_retenciones/management/commands/migrar_con_pandas.py:55-66 | the map gains exactly the RUCs of the rows |
| Migration.ImportCovers | portal_retenciones/management/commands/migrar_con_pandas.py:55-66 | every client row stays the one its RUC maps to |
| Migration.ImportFirstWins | portal_retenciones/management/commands/migrar_con_pandas.py:57-66 | a new RUC's client carries the RUC, business name and status of the first row with that RUC, stamped with the import time |
| Migration.FirstRowKept | portal_retenciones/management/commands/migrar_con_pandas.py:58-66 | later rows with a mapped RUC change neither its key nor its row |
| Migration.ToCreateAppend | portal_retenciones/management/commands/migrar_con_pandas.py:79-93 | splitting the rows splits the circuits: they keep their rows' order |
| Migration.ToCreateOne | portal_retenciones/management/commands/migrar_con_pandas.py:80-95 | a row yields a circuit exactly when its RUC maps to a nonzero key, bound to that client |
| Migration.ToCreateHasParents | portal_retenciones/management/commands/migrar_con_pandas.py:80-92 | every circuit to create points at a client the map names |
| Migration.PartitionCircuitos | portal_retenciones/management/commands/migrar_con_pandas.py:74-95 | the loop builds exactly the reference list, in row order; the created count is its length and the two counters add up to the number of rows |
| Migration.ToCreateMembers | portal_retenciones/management/commands/migrar_con_pandas.py:79-95 | a circuit row is in the list exactly when its RUC maps to a nonzero key, and then bound to that client |
| Migration.BulkCreate | portal_retenciones/management/commands/migrar_con_pandas.py:98 | the bulk insert keeps existing rows, saves the i-th listed circuit under the i-th key the sequence issues, stamped with the import time (`auto_now_add`), advances the sequence by the list's length, and adds nothing else |
| Migration.ImportFromEmpty | portal_retenciones/management/commands/migrar_con_pandas.py:41-66 | into the wiped table, the import makes one client per distinct RUC with its first row's RUC, business name and status and the import time, and a map covering exactly those RUCs |
| Migration.CircuitosHaveClientes | portal_retenciones/management/commands/migrar_con_pandas.py:80-98 | every bulk-created circuit points at an imported client |
| Migration.MigratedCircuitosComplete | portal_retenciones/management/commands/migrar_con_pandas.py:79-98 | every legacy circuit row whose RUC maps to a nonzero key is saved, bound to that client and stamped with the import time |
| Migration.MigratedCircuitosSound | portal_retenciones/management/commands/migrar_con_pandas.py:79-98 | every saved circuit comes from a legacy row whose RUC maps to a nonzero key |
| Migration.MigratedWf | portal_retenciones/management/commands/migrar_con_pandas.py:41-98 | the rebuilt client and circuit tables satisfy every constraint |
| Migration.Migrar | portal_retenciones/management/commands/migrar_con_pandas.py:39-103 | on a consistent database the command succeeds and keeps every constraint; requests and links are emptied while the executive, analyst, status and level tables and the assignment cursor are kept; the client table is the import into the wiped table: one client per distinct RUC, with the first row's RUC, business name and status and the import time; the circuit table is the bulk insert of the list drawn with the resulting RUC map; the reported counts are the number of distinct RUCs, the list's length, and the rows left without a parent |

## Left out

- Rendering, redirects and the messages framework: each view returns an outcome tag (an error constructor, a `Note`, a warning flag) instead of a page.
- Django authentication: the acting user is an `Actor` (key and user row). `has_perm` is membership in a set of permission names, and `get_full_name()` is a stored string.
- Form parsing: client, user and circuit keys (`getlist('circuitos_seleccionados')`, pages.py:79, handed to `.set` at pages.py:121) arrive as numbers or `None`. A non-numeric key, which would raise a `ValueError` and reach the generic error branch, is not modelled.
- Clock and randomness: `timezone.now()` and every `auto_now_add` field become a `Time` argument. In the migration this argument replaces the legacy registration and creation dates, which Django discards on insert. `random.choice` becomes a `draw` index into the active analysts in key order, so every analyst is reachable but no distribution is claimed.
- The legacy SQL Server connection, `pd.read_sql` and the printed report of `migrar_con_pandas`: the query results are sequences of rows and the report is a `Report` value. `renta_mensual` and the other decimals are carried as integers in hundredths and never computed with.
- Model defaults are not modelled as such. Staff rows get `activo` from its default (`True`), since the assignment passes only the name and e-mail; the model writes that value into each new row. The creation view sets `asignado_automaticamente` itself, and migrated clients and circuits carry the legacy status, so the `estado = 'Activo'` default is never used. The executive's `max_carga_renta` and `disponible_asignacion` are read and written by none of the modelled code and are not part of the row.
- Concurrency: each operation is one atomic step over the store; interleavings and locking are not modelled.
- The GET branches of `nueva_solicitud_view` and `gestion_personal_view`: the empty form, and the user roster ordered by username. The roster's role flags are modelled by `Personnel.RolesDe`.
- `personal_view`, `perfil_view`, the dashboard, the status-change action and comment posting are not part of this model. The dashboard and the status-change action are routed in config/urls.py, but pages.py does not define them; comment posting has neither a route nor a view; and no code writes assignment-history rows.
- Admin registration, routing, authentication views and the menu script: Django and browser plumbing.
- Listing.OrderByNewest: requests created at the same instant come in an unspecified order, as in the database.
- Api.SearchClientes: the query has no `order_by`, so the model takes clients in ascending key order, which is the order of a table scan; another row order would return a different ten.
- Api.CircuitosPorCliente: the same assumption of ascending key order.
- Detail.VerDetalle, Creation.NuevaSolicitud, Personnel.GestionPersonal, Seed.SeedDb and Migration.Migrar require `Wf` of the store. This is the invariant the database itself enforces, so the code never runs on a store that breaks it.
- Migration.Migrar: the legacy rows are assumed free of NULLs. A NULL or NaN business name, status, circuit name or monthly fee would make an insert raise; the command catches the exception and prints it, and since it runs without a transaction the database stays wiped and partly imported. That failure and its partial state are not modelled.
- Creation.NuevaSolicitud: a chosen circuit of another client is linked like any other. The view does not check ownership, and the model keeps that.
