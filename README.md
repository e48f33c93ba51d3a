# Appointment engine of the "Gestión de Citas" clinic app, in Dafny

This project models the slot-availability and booking-conflict engine of a
small clinic scheduling application (one practitioner, patients booking by
phone) and proves properties of it. The engine's canonical version is
`modules/core.py`, and three older revisions repeat it with different rules.

- **Schedule** (module `Schedule`). The weekly template gives three working
  windows Monday to Friday, one long Saturday morning and none on Sunday. The
  slot generator walks each window in 30-minute steps and excludes each
  window's end.
- **Progressions** (module `Progression`). The three slot generators of the
  source are all one progression `Steps(from, last, step)`, each with its own
  end convention:
  - `modules/core.py` uses an exclusive end;
  - `Home.py` includes the end point, 09:00 to 17:00;
  - `bd_utils.py` stops at `fin - paso`.
- **Booking rules** (modules `Common`, `Citas`, `CoreStore`):
  - the lead time: nothing before the day after tomorrow;
  - one booking per patient per day, and none within six days either side;
  - `UNIQUE (fecha, hora)`: one booking per slot;
  - the patient find-or-create, keyed on the normalised phone.
- **The store of `modules/core.py`.** `CoreStore.Agenda` is a class holding
  the `citas` and `pacientes` tables and the next values of their SERIAL
  sequences. The schema constraints are its invariant `Valid()`. Each
  operation's new state is tied to a function of the old state.
- **Text** (module `Text`). `normalize_tel`, Python's `str.strip`, and the
  Mexican E.164 normaliser `_to_e164_mx`.
- **Reminder batch** (module `Reminders`). `enviar_recordatorios_manana` is
  a loop with per-row failure isolation and counters. The messaging service's
  answers are a parameter.
- **The Home.py / app_gestion_citas/db_utils.py store** (module `HomeStore`).
  Patients are found by the exact `(nombre, telefono)` pair, and every day has
  the same 17 slots.
- **The status-aware table of `bd_utils.py`** (module `ProfAgenda`):
  - bookings per professional;
  - a partial unique index over `(profesional, fecha, hora)` that covers only
    `reservada`/`atendida` rows;
  - a CHECK that the date is at least two days ahead;
  - the listing with optional filters, and status changes.

**Conventions:**
- **Dates** are Python ordinals (`date.toordinal()`), so `weekday()` is
  `(d + 6) % 7`.
- **Times** are minutes since midnight.
- **"Today" and "now"** are parameters.
- **Errors:** the exceptions the source raises (the `assert` of the lead-time
  rule, `ValueError`, PostgreSQL's `UniqueViolation` and `CheckViolation`)
  become values of the `Outcome`, `WriteError` or `DbResult` datatypes.
- **PostgreSQL's order of evaluation** is kept in three places:
  - a SERIAL value is drawn before the constraints are checked, so a failed
    INSERT still uses an id;
  - CHECK constraints are evaluated before unique indexes, and foreign keys
    last;
  - a partial index only constrains the rows its WHERE clause covers.

**Where the model follows the code rather than its documentation:**
- **Missing ids.** Deleting or editing a booking whose id is absent is not an
  error. `eliminar_cita` returns 0, and `actualizar_cita` updates nothing.
- **Self-service booking** takes a patient id. It does not resolve a phone.
- **Patient creation.** The admin paths resolve or create the patient before
  the booking INSERT, so a patient created for a booking whose slot turns out
  taken stays in the table.

## Model

| member | source | states |
|---|---|---|
| Common.Weekday | modules/core.py:210 | `date.weekday()` on ordinals: always a value from 0 (Monday) to 6 (Sunday) |
| Common.IsFechaPermitida | modules/core.py:206-207 | `is_fecha_permitida`: the date is at least BLOQUEO_DIAS_MIN = 2 days after today (its boundary is proved by LeadTimeBoundary) |
| Common.LeadTimeBoundary | modules/core.py:206-207 | `is_fecha_permitida` with BLOQUEO_DIAS_MIN = 2 holds iff the date is at least two days after today: T+1 is refused, T+2 is the first date allowed, and every later date is allowed too (the same rule as Home.py:91-93, app_gestion_citas/db_utils.py:11-13 and app_gestion_citas/constants.py:7) |
| Progression.Steps | modules/core.py:222-223 | the points a `while`-loop stepping time produces: empty iff the start is beyond the last point, and every point lies between the start and the last point |
| Progression.StepsFormula | modules/core.py:222-223 | the k-th point is exactly k steps after the start, and the last point is the largest one not beyond the end |
| Progression.StepsAscending | Home.py:86-88 | the stepped points come out strictly ascending |
| Progression.StepsOnGrid | modules/core.py:222-223 | in 30-minute steps every point is a whole number of steps after the start |
| Schedule.BlocksOfDay | modules/core.py:209-216 | `_bloques_del_dia`: the windows are non-empty, inside the day, ascending and non-overlapping; there are three on Monday to Friday, one on Saturday, and none exactly on Sunday |
| Schedule.BlockSlots | modules/core.py:221-223 | the slots of one window: from its start in 30-minute steps while before its end (properties in BlockSlotsOnGrid) |
| Schedule.SlotsOfBlocks | modules/core.py:218-224 | the slots of a list of windows, window after window (properties in SlotsOfBlocksSound) |
| Schedule.DaySlots | modules/core.py:218-224 | what `generar_slots(fecha)` returns: the slots of that day's windows (the values are in WeekdaySlots, SaturdaySlots and SundaySlots) |
| Schedule.BlockSlotsOnGrid | modules/core.py:221-223 | the slots of one window lie inside it, on its 30-minute grid from the window's start |
| Schedule.SlotsOfBlocksSound | modules/core.py:218-224 | every generated slot lies in some window, with ini <= t < fin and a whole number of 30-minute steps after the window's start, and the slots are strictly ascending |
| Schedule.WeekdaySlots | modules/core.py:211-212 | Monday to Friday gives exactly the ten slots 10:00, 10:30, 11:00, 11:30, 14:00, 14:30, 15:00, 15:30, 16:00 and 18:30 |
| Schedule.SaturdaySlots | modules/core.py:213-214 | Saturday gives exactly the twelve slots 08:00 to 13:30 |
| Schedule.SundaySlots | modules/core.py:215-216 | Sunday gives no slot |
| Schedule.GenerarSlots | modules/core.py:218-224 | `generar_slots` returns the slots of the day's windows, strictly ascending, each one inside a window |
| Schedule.WalkBlocks | modules/core.py:220-223 | the nested loop (each window walked `while t < tfin`) yields the windows' slots, window after window |
| Text.Lower | modules/core.py:50 | `lower()` on ASCII: same length, and each character lower-cased |
| Text.IsSpace | modules/core.py:50 | the whitespace set of Python's `str.isspace`, which `strip()` removes and `\s` matches |
| Text.TrimStart | modules/core.py:50 | the left half of `strip()`: a suffix of the input whose dropped prefix is all whitespace, and which does not start with whitespace |
| Text.TrimEnd | modules/core.py:50 | the right half of `strip()`: a prefix of the input whose dropped suffix is all whitespace, and which does not end with whitespace |
| Text.Strip | modules/core.py:385-386 | `strip()`: the result is a slice of the input with only whitespace before and after it, and it neither starts nor ends with whitespace (so it is the input with exactly its surrounding whitespace removed; all-whitespace input gives "") |
| Text.RemoveSeparators | modules/core.py:50 | `re.sub(r'[-\s]+', '', ...)`: no '-' and no whitespace is left, no character is invented, and the result is no longer than the input; that every other character is kept, in order, is stated by RemoveSeparatorsKeeps and RemoveSeparatorsAppend |
| Text.RemoveSeparatorsKeeps | modules/core.py:50 | every character that is not '-' or whitespace occurs in the result exactly as often as in the input |
| Text.RemoveSeparatorsAppend | modules/core.py:50 | the removal works piece by piece (`f(a + b) == f(a) + f(b)`), so the kept characters keep their order |
| Text.NormalizeTel | modules/core.py:49-50 | `normalize_tel`: the result is the lower-cased input with every '-' and whitespace character removed (the `strip()` is redundant), so it holds no whitespace, no '-' and no upper-case letter, and is no longer than the input |
| Text.StripIsRedundant | modules/core.py:50 | removing every separator after lower-casing gives the same result with or without the preceding `strip()` |
| Text.LowerAppend | modules/core.py:50 | lower-casing works piece by piece: `Lower(a + b) == Lower(a) + Lower(b)` |
| Text.NormalizeTelIdempotent | modules/core.py:49-50 | normalising a normalised phone gives it back unchanged |
| Text.Digits | modules/core.py:351 | `re.sub(r"\D+", "", tel)`: only digits are left; that every digit is kept, in order, is stated by DigitsKeeps and DigitsAppend |
| Text.DigitsKeeps | modules/core.py:351 | every digit occurs in the result exactly as often as in the input |
| Text.DigitsAppend | modules/core.py:351 | digit extraction works piece by piece (`Digits(a + b) == Digits(a) + Digits(b)`), so the digits keep their order |
| Text.ToE164Mx | modules/core.py:348-359 | `_to_e164_mx`: empty or digitless input gives None; input starting with '+' is returned unchanged; otherwise, when the digits start with "52" the result is "+" and the digits, and when they do not and there are exactly ten the result is "+52" and the ten digits; any result starts with '+' and has digits |
| Text.ToE164MxAccepts | modules/core.py:350-359 | a number is accepted iff it is non-empty, has digits, and starts with '+', or its digits start with "52", or it has exactly ten digits |
| Text.ToE164MxIdempotent | modules/core.py:353-354 | a normalised number is returned unchanged when normalised again |
| Citas.Occupied | modules/core.py:226-228 | `slots_ocupados`: a time is in the set iff some booking holds that date and time (the same query as Home.py:116-118 and app_gestion_citas/db_utils.py:42-44) |
| Citas.SlotsUnique | modules/core.py:130 | `UNIQUE (fecha, hora)`: no two bookings share a date and time (kept by TryInsert, InsertAll and RemovedKeeps) |
| Citas.HasCitaOnDay | modules/core.py:190-192 | `ya_tiene_cita_en_dia`: some booking of the patient is on that date |
| Citas.HasCitaInWindow | modules/core.py:194-204 | `ya_tiene_cita_en_ventana_7dias`: some booking of the patient is between six days before and six days after the date, both ends included |
| Citas.FreeSlots | Home.py:179-180 | the free list holds exactly the generated slots that are not occupied, and is no longer than the slot list |
| Citas.FreeSlotsAscending | Home.py:180 | the comprehension keeps generation order: ascending slots give an ascending free list |
| Citas.FreeSlotsUnion | Home.py:180 | filtering by one more occupied time is filtering the free list by that time |
| Citas.TryInsert | modules/core.py:130 | an INSERT under `UNIQUE (fecha, hora)` is refused iff the slot is booked, and an admitted one keeps slots unique |
| Citas.BookedSlotNotFree | modules/core.py:236-240 | after a successful booking, its time is occupied and missing from the free list, and nothing else has left the free list |
| Citas.InsertAll | modules/core.py:130 | any sequence of insert attempts keeps slots unique, and no more attempts succeed than were made |
| Citas.SameSlotSingleWinner | modules/core.py:123-131 | of N attempts at the same slot, exactly one succeeds when the slot was free, and none when it was taken or N = 0 |
| Citas.Updated | modules/core.py:271 | `UPDATE citas SET paciente_id, nota WHERE id`: same length; id, date and time of every row unchanged; rows with another id unchanged; the matching row gets the new patient and note; slots stay unique |
| Citas.Removed | modules/core.py:275 | `DELETE ... WHERE id`: exactly the rows with another id remain, and nothing changes when the id is absent |
| Citas.RemovedCount | modules/core.py:273-279 | the number of rows deleted is 1 when the id is present and 0 when it is absent (the "La cita ya no existía" case) |
| Citas.RemovedKeeps | modules/core.py:275 | deleting keeps slots unique and ids distinct and below the sequence |
| Citas.ProximaCita | modules/core.py:151-162 | `proxima_cita_paciente`: the result is one of the patient's bookings that has not started (after today, or today from now on), and no such booking is earlier; None iff there is none |
| CoreStore.PhoneOwner | modules/core.py:244 | `SELECT id ... WHERE telefono=%s LIMIT 1`: None iff no patient has that phone, otherwise the id of a patient with that phone |
| CoreStore.Resolve | modules/core.py:244-249 | find-or-create on the stripped name and normalised phone: the returned id is that of a patient with that phone; nothing changes when the phone is present; otherwise exactly one patient with the next id is appended and the sequence advances |
| CoreStore.FindOrCreate | modules/core.py:242-252 | the returned id is that of a patient with the normalised phone; when the phone is present nothing changes; otherwise exactly one patient (stripped name, normalised phone, next id) is appended and the sequence advances |
| CoreStore.ResolveKeeps | modules/core.py:118 | find-or-create on cleaned values keeps phones unique and ids distinct and below the sequence, and every existing patient stays |
| CoreStore.FindOrCreateKeeps | modules/core.py:115-121 | find-or-create keeps phones unique and ids distinct and below the sequence, and every existing patient stays |
| CoreStore.ResolveIdempotent | modules/core.py:244-246 | a phone resolved once is found the second time, under any name: same id, nobody added |
| CoreStore.FindOrCreateIdempotent | modules/core.py:242-252 | resolving two phones that normalise alike, one after the other, gives the same id and adds nobody the second time |
| CoreStore.AuthBookingOkIff | modules/core.py:230-240 | a self-service booking succeeds iff the date is at least two days ahead, the patient holds no booking from six days before to six days after, the slot is free and the patient exists |
| CoreStore.AuthBookingOutcome | modules/core.py:230-240 | `agendar_cita_autenticado`: the lead-time rule, then the same-day rule, then the seven-day window, then the INSERT, the first failing rule deciding the outcome (AuthBookingOkIff and FrequencyBoundary state its meaning) |
| CoreStore.InsertOutcome | modules/core.py:237-240 | the booking INSERT: the unique slot first, then the patient's foreign key |
| CoreStore.FrequencyBoundary | modules/core.py:190-204 | a patient booked on day t is refused with the same-day message on t and for frequency on every day from t-6 to t+6; when that is the patient's only booking, days t+7 and later and t-7 and earlier are not refused for frequency |
| CoreStore.ForeignKeysGrow | modules/core.py:127 | bookings whose patients all exist still satisfy the foreign key after patients are added |
| CoreStore.Agenda.constructor | modules/core.py:114-131 | the tables start empty, with both SERIAL sequences at 1 and every schema constraint holding |
| CoreStore.Agenda.CrearOEncontrarPaciente | modules/core.py:242-252 | the new patients table, sequence and returned id are those of `FindOrCreate`; bookings untouched; constraints kept |
| CoreStore.Agenda.Register | modules/core.py:244-252 | the SELECT and INSERT on the cleaned values: the new patients table, sequence and id are those of `Resolve`; bookings untouched; constraints kept |
| CoreStore.Agenda.AgendarCitaAutenticado | modules/core.py:230-240 | the outcome is the lead-time rule, then the same-day rule, then the ±6-day window, then the INSERT; only Ok appends the booking, and every refusal leaves the tables unchanged; the booking sequence advances iff the INSERT was attempted |
| CoreStore.Agenda.CrearCitaManual | modules/core.py:254-257 | no lead-time or frequency rule: the patient is resolved (and stays), then the booking is appended iff its slot is free, otherwise "slot taken" |
| CoreStore.Agenda.Insert | modules/core.py:237-240 | the INSERT's outcome: the unique index first ("slot taken"), then the foreign key; only Ok appends, and the id is drawn either way |
| CoreStore.Agenda.ActualizarCita | modules/core.py:269-271 | resolves the patient, then sets only `paciente_id` and `nota` of the row with that id; no row with that id, no booking change |
| CoreStore.Agenda.SetPaciente | modules/core.py:271 | the UPDATE for an existing patient: the bookings become `Updated(...)` and the constraints, including the foreign key, still hold |
| CoreStore.Agenda.EliminarCita | modules/core.py:273-279 | removes the row with that id, returns 1 if it was present and 0 if not, and nothing else changes |
| Reminders.Entry | modules/core.py:385-400 | the entry built for a row: stripped name and phone, the same id, date and time, not ok, no error, and `to_e164` empty iff the phone does not normalise, otherwise the normalised number |
| Reminders.Entries | modules/core.py:384-400 | one entry per row, in row order |
| Reminders.Settle | modules/core.py:402-415 | only `ok` and `error` change: an invalid phone fails with "Teléfono inválido/no E.164"; in a dry run a valid row is ok; otherwise ok iff the service delivered, with the service's error message on failure and the error left empty on delivery |
| Reminders.Details | modules/core.py:384-417 | the detail list has one entry per row |
| Reminders.EnviarRecordatoriosManana | modules/core.py:374-419 | the loop's summary has total = number of rows, the counters of ok and failed entries, and the settled entries in row order; the sends made are exactly those of `Sends` |
| Reminders.SummaryOf | modules/core.py:380-417 | the returned summary: total = number of rows, the counts of ok and failed details, and the details in row order (SummaryBalanced, DryRunCounts and DetailsAt state its properties) |
| Reminders.Sends | modules/core.py:402-417 | the addresses sent to, in row order: each valid row's number unless in a dry run (SendsCount and SendsAreRecipients state its properties) |
| Reminders.Step | modules/core.py:402-417 | one iteration's accounting: from the state after rows 0..i-1, the detail list, the counters and the sends become those after rows 0..i |
| Reminders.HandleRow | modules/core.py:385-417 | one iteration: the row's settled entry, and one send to its normalised number iff the phone is valid and it is not a dry run |
| Reminders.SummaryBalanced | modules/core.py:380-417 | total == enviados + fallidos, and there is one detail per row |
| Reminders.DetailsAt | modules/core.py:384-417 | per-row failure isolation: the i-th detail depends only on row i and its reply |
| Reminders.InvalidPhoneFails | modules/core.py:402-406 | a row whose phone does not normalise is a failure with the invalid-phone message and an empty `to_e164`, and fewer sends than rows happen |
| Reminders.SendsCount | modules/core.py:408-410 | no send in a dry run, otherwise exactly one send per valid row |
| Reminders.SendsAreRecipients | modules/core.py:410 | every address sent to is the normalised number of some row |
| Reminders.DryRunCounts | modules/core.py:409-412 | in a dry run the valid rows count as sent and the rest as failed, whatever the service would answer |
| HomeStore.GenerarSlots | Home.py:80-89 | the `while t <= fin` loop yields the progression 09:00 to 17:00 inclusive, strictly ascending, every slot on the 30-minute grid |
| HomeStore.HomeSlots | Home.py:16-18 | every day has exactly the seventeen slots 09:00, 09:30, ..., 17:00 |
| HomeStore.PairOwner | Home.py:97-102 | `SELECT id WHERE nombre AND telefono LIMIT 1`: None iff no row has the exact pair, otherwise the id of a row with the pair |
| HomeStore.NewestOwner | app_gestion_citas/db_utils.py:35-39 | `... ORDER BY id DESC LIMIT 1`: None iff no row has the pair, otherwise the largest id among the rows with the pair |
| HomeStore.NewestIsInserted | app_gestion_citas/db_utils.py:31-39 | after the INSERT, the newest row with the pair is the one just inserted |
| HomeStore.FindOrCreatePair | Home.py:95-114 | the returned id is that of a row with exactly that pair; nothing changes when one exists; otherwise exactly one row with the pair and the next id is appended |
| HomeStore.FindOrCreatePairKeeps | Home.py:53-59 | find-or-create keeps ids distinct and below the sequence, keeps every existing patient, and returns an existing patient |
| HomeStore.SamePhoneOtherName | Home.py:57 | phones are not unique here: the same phone under another name creates a second patient with a different id |
| HomeStore.Agenda.constructor | Home.py:53-72 | empty tables, sequences at 1, constraints holding |
| HomeStore.Agenda.CrearOEncontrarPaciente | Home.py:95-114 | the new patients table, sequence and id are those of `FindOrCreatePair`; bookings untouched |
| HomeStore.Agenda.CrearOEncontrarPacienteReselect | app_gestion_citas/db_utils.py:22-39 | the version that re-selects the newest matching row after the INSERT has the same result and new state as Home.py's version (so db_utils.py's `agendar_cita` at 47-55, `actualizar_cita` at 71-76 and `crear_cita_manual` at 79-85 behave as the Home rows below) |
| HomeStore.Agenda.InsertFor | Home.py:123-126 | the booking for an existing patient is appended iff its slot is free, otherwise "slot taken" and no change; the id is drawn either way |
| HomeStore.Agenda.AgendarCita | Home.py:120-126 | before two days ahead the call is refused and nothing is written; otherwise the stripped pair is resolved, then the booking is appended iff the slot is free |
| HomeStore.Agenda.CrearCitaManual | Home.py:144-149 | no lead-time rule: the stripped pair is resolved (and stays), then the booking is appended iff the slot is free, otherwise "slot taken" |
| HomeStore.Agenda.ActualizarCita | Home.py:140-142 | the stripped pair is resolved, then only `paciente_id` and `nota` of the row with that id change |
| HomeStore.Agenda.SetPaciente | Home.py:142 | the UPDATE for an existing patient: the bookings become `Updated(...)` and the constraints still hold |
| ProfAgenda.SlotsDelDia | bd_utils.py:61-69 | `slots_del_dia`: the progression from `inicio` to `fin - paso` inclusive, strictly ascending, with every slot ending by `fin` |
| ProfAgenda.SlotsDelDiaDefaults | bd_utils.py:61-62 | with the defaults 09:00, 19:00 and 30 minutes: exactly twenty slots, 09:00 to 18:30 |
| ProfAgenda.ActiveSlotsUnique | bd_utils.py:36-38 | `ux_citas_slot`: no two `reservada`/`atendida` rows share professional, date and time (kept by InsertKeepsUnique and EstadoUpdateKeepsUnique) |
| ProfAgenda.FechaMinima | bd_utils.py:46-48 | `chk_fecha_minima`: the date is at least two days after the day of the write |
| ProfAgenda.ActiveOccupied | bd_utils.py:71-79 | `slots_ocupados`: a time is in the set iff a `reservada` or `atendida` booking of that professional holds it on that date |
| ProfAgenda.CancelledDoesNotBlock | bd_utils.py:36-38 | adding a cancelled booking leaves the occupied set unchanged |
| ProfAgenda.InsertError | bd_utils.py:36-48 | an INSERT succeeds iff the date passes the CHECK and no active booking holds the slot (when the new row is active); a unique violation is only reported once the CHECK has passed |
| ProfAgenda.InsertKeepsUnique | bd_utils.py:36-38 | an admitted INSERT keeps at most one active booking per (profesional, fecha, hora) |
| ProfAgenda.EstadoUpdate | bd_utils.py:113-116 | `UPDATE citas SET estado`: an absent id changes nothing; for a present id the update succeeds iff the CHECK is not applied to updates or the row's date passes it, and no other active row holds the slot when the new status is active; a success keeps the row count; a check violation only happens when the CHECK is applied to the update and the row's date is too close; a unique violation only happens when the new status is active |
| ProfAgenda.EstadoUpdateOnlyEstado | bd_utils.py:114 | a status change touches only the `estado` of the row with that id |
| ProfAgenda.EstadoUpdateKeepsUnique | bd_utils.py:36-38 | an admitted status change keeps active slots unique |
| ProfAgenda.ReactivateOntoOccupied | bd_utils.py:113-116 | reactivating a cancelled booking whose slot another active booking holds violates the partial unique index, whether or not the CHECK is applied to updates (when it is, the row's date must pass it) |
| ProfAgenda.CancelNeverUniqueViolation | bd_utils.py:38 | cancelling never meets the unique index |
| ProfAgenda.AsWrittenRefusesAnyDueBooking | bd_utils.py:46-48 | as written, every status change (attended, cancelled or reactivated) of any booking dated before today + 2 is refused by `chk_fecha_minima` |
| ProfAgenda.IntendedClosesAnyBooking | bd_utils.py:113-116 | with the date rule on new bookings only, any active booking can be marked attended or cancelled |
| ProfAgenda.InsertSorted | bd_utils.py:108 | insertion into the ordered list adds exactly that row |
| ProfAgenda.InsertSortedSorted | bd_utils.py:108 | insertion keeps `(fecha, hora)` order |
| ProfAgenda.SortByFechaHora | bd_utils.py:108 | the sort is a permutation of its input |
| ProfAgenda.SortSorted | bd_utils.py:108 | the sort's output is in `(fecha, hora)` order |
| ProfAgenda.Select | bd_utils.py:96-107 | a row is selected iff it is in the table and meets every WHERE clause, with no row counted more often than in the table |
| ProfAgenda.Matching | bd_utils.py:92-107 | the reference selection: a row is in it iff it is in the table and meets every filter that was given |
| ProfAgenda.MatchingAll | bd_utils.py:98-107 | omitted or empty filters do not restrict: every row matches |
| ProfAgenda.SelectIsMatching | bd_utils.py:98-107 | the WHERE clauses select exactly the reference selection, in table order |
| ProfAgenda.WhereClauses | bd_utils.py:98-107 | one clause per given argument, and none that was not asked for |
| ProfAgenda.FiltersMeaning | bd_utils.py:98-107 | a row meets the built clauses iff it matches every given filter |
| ProfAgenda.ListarCitas | bd_utils.py:92-111 | `listar_citas` returns exactly the matching rows, with their multiplicity, in `(fecha, hora)` order |
| ProfAgenda.Agenda.constructor | bd_utils.py:24-54 | an empty table with the id sequence at 1 |
| ProfAgenda.Agenda.CrearCita | bd_utils.py:81-90 | a new `reservada` row is appended with the drawn id and that id is returned, or the table is unchanged and the error (CHECK, then unique index) is returned; the id is used up either way |
| ProfAgenda.Agenda.CambiarEstadoCita | bd_utils.py:113-116 | as written: the new table and error are those of the status update with the CHECK applied, and active slots stay unique |
| ProfAgenda.Agenda.CambiarEstadoCitaIntended | bd_utils.py:113-116 | the corrected status change: the same, without the CHECK on the update |
| ProfAgenda.Agenda.SetEstado | bd_utils.py:113-116 | the shared body of both status changes: the table is replaced by the update's result on success and untouched on failure |

## Left out

- **I/O and plumbing.** The database connection, `exec_sql`/`query_df` and their caches, and schema creation are replaced by in-memory tables. The SQL text itself becomes functions on sequences of rows.
- **Foreign calls:**
  - bcrypt hashing and the pepper;
  - `registrar_paciente` and `login_paciente`, which only matter for login;
  - the WhatsApp configuration and the HTTP send. The send's outcome for each row is the `replies` parameter.
- **The `citas_manana` query.** Its rows are a parameter of the reminder batch.
- **Formatting.** Date and time formatting through pandas is left out; entries keep the date and time as values.
- **Admin listings.** `citas_por_dia` is not modelled. It is a listing by date with a LEFT JOIN, used only by the admin pages.
- **Outside this model:**
  - the Streamlit pages and the signed session tokens;
  - `1.py`, which is truncated and repeats Home.py;
  - `app_gestion_citas/schema.sql`. app_gestion_citas/db_utils.py is modelled over Home.py's schema, and that file's `exec_sql`/`query_df` are not defined there.
- **Concurrency.** Simultaneous bookings are modelled one after another; the unique constraint decides between them.
- **Clocks.** `date.today()`, `CURRENT_DATE`, `CURRENT_TIME` and the Mexico City time zone become parameters.
- **Storage failures.** A database that cannot be reached is not modelled.
- **Python's `-O` mode.** The lead-time `assert` of `agendar_cita` is modelled as always checked. Under `python -O` it would disappear.
- **Text.Lower:** covers ASCII letters only. Python's `lower()` also folds non-ASCII letters.
- **Text.Digits:** treats only '0' to '9' as digits. Python's `\D` also treats other Unicode decimal digits as digits.
- **Creation timestamps.** `creado_en` and `created_at` are not modelled.
- **ProfAgenda.SlotsDelDia:** requires `paso > 0`. With `paso_min <= 0`, the loop of bd_utils.py:66-68 never ends, because `dt` never passes `end - paso_min`. Every caller uses the default of 30.
- **ProfAgenda.InsertError:** assumes `chk_fecha_minima` is installed, so every INSERT is checked against the two-day rule (as are updates when `checkOnUpdate` holds). As written, `ensure_schema` (bd_utils.py:56-59) cuts the `DO $$` block at line 48 and raises before the constraint exists. A database set up only through it would accept INSERTs of any date, and the model does not describe that table.
- **ProfAgenda.Agenda.Valid:** does not include "every stored booking has fecha >= CURRENT_DATE + 2". The CHECK holds only on the day of each write, and stored rows fall behind it as days pass. The model checks it at each INSERT and UPDATE (`InsertError`, `EstadoUpdate`).
- **ProfAgenda.ActiveEstado:** `estado` is a free string, because the DDL names the three statuses only in a comment and does not enforce them. New bookings start as `reservada` (see `ProfAgenda.Agenda.CrearCita`).
- **ProfAgenda.ListarCitas:** relates the result to the matching rows as a multiset. `ORDER BY fecha, hora` leaves the order of rows with equal date and time to the database.
- **HomeStore.PairOwner:** `LIMIT 1` without `ORDER BY` may return any matching row. The model takes the first, and the contracts only rely on "a row with the pair".

## Findings

| source | as written | input that shows it | evidently intended | confidence | as-written member | corrected member |
|---|---|---|---|---|---|---|
| bd_utils.py:46-48 | `chk_fecha_minima` is a table CHECK, and PostgreSQL re-evaluates it on every UPDATE, including `cambiar_estado_cita` (bd_utils.py:113-116) | any booking dated today or tomorrow: `cambiar_estado_cita(id, 'atendida')`, `'cancelada'` or `'reservada'` (the three buttons of admin_citas.py:44-49, whose date filter defaults to today at admin_citas.py:22) all give CheckViolation. This holds only where the constraint exists. As written, `ensure_schema` (bd_utils.py:56-59) never installs it: it splits the DDL on ";\n", and line 48 ends in ";\n" inside the `DO $$ … END$$` block (bd_utils.py:41-50), so the server receives a statement with an unterminated dollar quote and the call raises every time (it is called at admin_citas.py:7, paciente_agendar.py:8 and app_home.py:6). The model takes the constraint as installed (see `ProfAgenda.InsertError` under "## Left out") | status changes always succeed (subject to the slot index), and the two-day rule applies to new bookings only | not executed | ProfAgenda.AsWrittenRefusesAnyDueBooking | ProfAgenda.IntendedClosesAnyBooking |
