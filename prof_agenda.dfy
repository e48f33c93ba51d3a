/** The status-aware booking table of bd_utils.py: bookings per professional,
    a partial unique index that only `reservada` and `atendida` rows take part
    in, and a CHECK that refuses dates before the day after tomorrow. */
module ProfAgenda {
  import opened Common
  import opened Progression

  /** A row of `citas` (the `created_at` column is not modelled). */
  datatype ProfCita = ProfCita(id: int, pacienteNombre: string, pacienteTelefono: string, motivo: string,
                               profesional: string, fecha: Date, hora: Time, estado: string)

  /** How PostgreSQL refuses a write to this table. */
  datatype WriteError = CheckViolation | UniqueViolation

  datatype DbResult<T> = Success(value: T) | Failure(error: WriteError)

  const Reservada: string := "reservada"
  const Atendida: string := "atendida"
  const Cancelada: string := "cancelada"
  const ProfesionalPorDefecto: string := "Carmen"

  /** `WHERE estado IN ('reservada','atendida')`: the rows the slot index covers. */
  predicate ActiveEstado(estado: string)
  {
    estado == Reservada || estado == Atendida
  }

  predicate SameSlot(a: ProfCita, b: ProfCita)
  {
    a.profesional == b.profesional && a.fecha == b.fecha && a.hora == b.hora
  }

  /** `ux_citas_slot`: no two active rows share `(profesional, fecha, hora)`. */
  predicate ActiveSlotsUnique(rows: seq<ProfCita>)
  {
    forall i, j :: 0 <= i < j < |rows| && ActiveEstado(rows[i].estado) && ActiveEstado(rows[j].estado) ==> !SameSlot(rows[i], rows[j])
  }

  predicate IdsDistinct(rows: seq<ProfCita>)
  {
    forall i, j :: 0 <= i < j < |rows| ==> rows[i].id != rows[j].id
  }

  /** `id BIGSERIAL PRIMARY KEY`. */
  predicate IdsBelow(rows: seq<ProfCita>, next: int)
  {
    (forall i :: 0 <= i < |rows| ==> rows[i].id < next) && IdsDistinct(rows)
  }

  /** `chk_fecha_minima`, evaluated against the day of the write. */
  predicate FechaMinima(fecha: Date, today: Date)
  {
    fecha >= today + 2
  }

  /** An active row other than row `k` holds that slot of that professional. */
  predicate ActiveSlotHeld(rows: seq<ProfCita>, k: int, profesional: string, fecha: Date, hora: Time)
  {
    exists j :: 0 <= j < |rows| && j != k && ActiveEstado(rows[j].estado)
      && rows[j].profesional == profesional && rows[j].fecha == fecha && rows[j].hora == hora
  }

  /** `slots_del_dia`: from `inicio` while `t <= fin - paso`, in steps of
      `paso` minutes (seconds are always zero here). */
  method SlotsDelDia(fecha: Date, inicio: Time, fin: Time, paso: int) returns (res: seq<Time>)
    requires paso > 0
    ensures res == Steps(inicio, fin - paso, paso)
    ensures StrictlyAscending(res)
    ensures forall t :: t in res ==> inicio <= t && t + paso <= fin
  {
    res := [];
    var dt := inicio;
    while dt <= fin - paso
      invariant res + Steps(dt, fin - paso, paso) == Steps(inicio, fin - paso, paso)
      decreases fin - dt
    {
      StepsPeel(res, dt, fin - paso, paso);
      res := res + [dt];
      dt := dt + paso;
    }
    StepsAscending(inicio, fin - paso, paso);
  }

  /** With the defaults 09:00, 19:00 and 30 minutes: twenty slots, the last
      18:30, so a booking never ends after closing time. */
  lemma SlotsDelDiaDefaults()
    ensures Steps(Hm(9, 0), Hm(19, 0) - 30, 30) ==
      [Hm(9, 0), Hm(9, 30), Hm(10, 0), Hm(10, 30), Hm(11, 0), Hm(11, 30), Hm(12, 0), Hm(12, 30),
       Hm(13, 0), Hm(13, 30), Hm(14, 0), Hm(14, 30), Hm(15, 0), Hm(15, 30), Hm(16, 0), Hm(16, 30),
       Hm(17, 0), Hm(17, 30), Hm(18, 0), Hm(18, 30)]
    ensures |Steps(Hm(9, 0), Hm(19, 0) - 30, 30)| == 20
  {
    assert Steps(990, 1110, 30) == [990, 1020, 1050, 1080, 1110];
    assert Steps(840, 1110, 30) == [840, 870, 900, 930, 960] + Steps(990, 1110, 30);
    assert Steps(690, 1110, 30) == [690, 720, 750, 780, 810] + Steps(840, 1110, 30);
    assert Steps(540, 1110, 30) == [540, 570, 600, 630, 660] + Steps(690, 1110, 30);
  }

  /** `slots_ocupados(fecha, profesional)`: the times of that professional's
      active bookings on that date. */
  function ActiveOccupied(rows: seq<ProfCita>, profesional: string, fecha: Date): (occ: set<Time>)
    ensures forall h :: h in occ <==> ActiveSlotHeld(rows, -1, profesional, fecha, h)
  {
    set i | 0 <= i < |rows| && rows[i].profesional == profesional && rows[i].fecha == fecha && ActiveEstado(rows[i].estado) :: rows[i].hora
  }

  /** A cancelled booking never blocks its slot. */
  lemma CancelledDoesNotBlock(rows: seq<ProfCita>, c: ProfCita)
    requires c.estado == Cancelada
    ensures ActiveOccupied(rows + [c], c.profesional, c.fecha) == ActiveOccupied(rows, c.profesional, c.fecha)
  {
    var rows' := rows + [c];
    forall h ensures h in ActiveOccupied(rows', c.profesional, c.fecha) <==> h in ActiveOccupied(rows, c.profesional, c.fecha) {
      if ActiveSlotHeld(rows', -1, c.profesional, c.fecha, h) {
        var j :| 0 <= j < |rows'| && j != -1 && ActiveEstado(rows'[j].estado)
          && rows'[j].profesional == c.profesional && rows'[j].fecha == c.fecha && rows'[j].hora == h;
        assert j < |rows| && rows'[j] == rows[j];
      }
      if ActiveSlotHeld(rows, -1, c.profesional, c.fecha, h) {
        var j :| 0 <= j < |rows| && j != -1 && ActiveEstado(rows[j].estado)
          && rows[j].profesional == c.profesional && rows[j].fecha == c.fecha && rows[j].hora == h;
        assert rows'[j] == rows[j];
      }
    }
  }

  /** Which error, if any, the INSERT of an active row meets: the CHECK first,
      then the unique index. */
  function InsertError(rows: seq<ProfCita>, c: ProfCita, today: Date): (e: Option<WriteError>)
    ensures e.None? <==> FechaMinima(c.fecha, today) && !(ActiveEstado(c.estado) && ActiveSlotHeld(rows, -1, c.profesional, c.fecha, c.hora))
    ensures e == Some(UniqueViolation) ==> FechaMinima(c.fecha, today)
  {
    if !FechaMinima(c.fecha, today) then Some(CheckViolation)
    else if ActiveEstado(c.estado) && ActiveSlotHeld(rows, -1, c.profesional, c.fecha, c.hora) then Some(UniqueViolation)
    else None
  }

  /** An INSERT the index admits keeps active slots unique. */
  lemma InsertKeepsUnique(rows: seq<ProfCita>, c: ProfCita, today: Date)
    requires ActiveSlotsUnique(rows) && InsertError(rows, c, today).None?
    ensures ActiveSlotsUnique(rows + [c])
  {
    var rows' := rows + [c];
    forall i, j | 0 <= i < j < |rows'| && ActiveEstado(rows'[i].estado) && ActiveEstado(rows'[j].estado)
      ensures !SameSlot(rows'[i], rows'[j])
    {
      assert rows'[i] == rows[i];
      if j < |rows| {
        assert rows'[j] == rows[j];
      } else if SameSlot(rows'[i], rows'[j]) {
        assert ActiveSlotHeld(rows, -1, c.profesional, c.fecha, c.hora);
      }
    }
  }

  /** The first position holding that id. */
  function IndexOf(rows: seq<ProfCita>, id: int): (k: Option<nat>)
    ensures k.None? <==> forall i :: 0 <= i < |rows| ==> rows[i].id != id
    ensures k.Some? ==> k.value < |rows| && rows[k.value].id == id
  {
    if rows == [] then None
    else if rows[0].id == id then Some(0)
    else
      var k := IndexOf(rows[1..], id);
      assert forall i :: 0 < i < |rows| ==> rows[i] == rows[1..][i - 1];
      if k.Some? then Some(k.value + 1) else None
  }

  /** `UPDATE citas SET estado=%s WHERE id=%s` on values. PostgreSQL
      evaluates a table's CHECK constraints on every new row version, so as
      written the date rule applies to this UPDATE too; `checkOnUpdate`
      selects that behaviour, and without it only the unique index can refuse. */
  function EstadoUpdate(rows: seq<ProfCita>, id: int, nuevo: string, today: Date, checkOnUpdate: bool): (r: DbResult<seq<ProfCita>>)
    ensures IndexOf(rows, id).None? ==> r == Success(rows)
    ensures r.Success? ==> |r.value| == |rows|
    ensures r.Failure? ==> IndexOf(rows, id).Some?
    ensures r == Failure(CheckViolation) ==> checkOnUpdate && !FechaMinima(rows[IndexOf(rows, id).value].fecha, today)
    ensures r == Failure(UniqueViolation) ==> ActiveEstado(nuevo)
    ensures IndexOf(rows, id).Some? ==>
              var c := rows[IndexOf(rows, id).value];
              (r.Success? <==> (!checkOnUpdate || FechaMinima(c.fecha, today))
                               && !(ActiveEstado(nuevo) && ActiveSlotHeld(rows, IndexOf(rows, id).value, c.profesional, c.fecha, c.hora)))
  {
    match IndexOf(rows, id)
    case None => Success(rows)
    case Some(k) =>
      var c := rows[k];
      if checkOnUpdate && !FechaMinima(c.fecha, today) then Failure(CheckViolation)
      else if ActiveEstado(nuevo) && ActiveSlotHeld(rows, k, c.profesional, c.fecha, c.hora) then Failure(UniqueViolation)
      else Success(rows[k := c.(estado := nuevo)])
  }

  /** A status change touches only the `estado` of the row with that id. */
  lemma EstadoUpdateOnlyEstado(rows: seq<ProfCita>, id: int, nuevo: string, today: Date, checkOnUpdate: bool)
    requires IdsDistinct(rows)
    requires EstadoUpdate(rows, id, nuevo, today, checkOnUpdate).Success?
    ensures var after := EstadoUpdate(rows, id, nuevo, today, checkOnUpdate).value;
      forall i :: 0 <= i < |rows| ==> after[i] == if rows[i].id == id then rows[i].(estado := nuevo) else rows[i]
  {
  }

  /** A status change the index admits keeps active slots unique. */
  lemma EstadoUpdateKeepsUnique(rows: seq<ProfCita>, id: int, nuevo: string, today: Date, checkOnUpdate: bool)
    requires ActiveSlotsUnique(rows)
    requires EstadoUpdate(rows, id, nuevo, today, checkOnUpdate).Success?
    ensures ActiveSlotsUnique(EstadoUpdate(rows, id, nuevo, today, checkOnUpdate).value)
  {
    var k := IndexOf(rows, id);
    if k.Some? {
      var after := EstadoUpdate(rows, id, nuevo, today, checkOnUpdate).value;
      forall i, j | 0 <= i < j < |after| && ActiveEstado(after[i].estado) && ActiveEstado(after[j].estado)
        ensures !SameSlot(after[i], after[j])
      {
      }
    }
  }

  /** Reactivating a cancelled booking whose slot another active booking
      now holds violates the partial unique index (when the CHECK is not
      applied to updates, or passes). */
  lemma ReactivateOntoOccupied(rows: seq<ProfCita>, k: int, j: int, nuevo: string, today: Date, checkOnUpdate: bool)
    requires IdsDistinct(rows)
    requires 0 <= k < |rows| && 0 <= j < |rows| && j != k
    requires rows[k].estado == Cancelada && ActiveEstado(rows[j].estado) && SameSlot(rows[j], rows[k])
    requires ActiveEstado(nuevo) && (checkOnUpdate ==> FechaMinima(rows[k].fecha, today))
    ensures EstadoUpdate(rows, rows[k].id, nuevo, today, checkOnUpdate) == Failure(UniqueViolation)
  {
    var idx := IndexOf(rows, rows[k].id);
    assert idx == Some(k);
    assert ActiveSlotHeld(rows, k, rows[k].profesional, rows[k].fecha, rows[k].hora);
  }

  /** Cancelling never meets the unique index. */
  lemma CancelNeverUniqueViolation(rows: seq<ProfCita>, id: int, today: Date, checkOnUpdate: bool)
    ensures EstadoUpdate(rows, id, Cancelada, today, checkOnUpdate) != Failure(UniqueViolation)
  {
  }

  /** As written: no booking dated before the day after tomorrow can change
      status at all (marked attended, cancelled or reactivated), because the
      UPDATE re-evaluates `fecha >= CURRENT_DATE + 2` on the new row version. */
  lemma AsWrittenRefusesAnyDueBooking(rows: seq<ProfCita>, k: int, nuevo: string, today: Date)
    requires IdsDistinct(rows) && 0 <= k < |rows| && rows[k].fecha < today + 2
    ensures EstadoUpdate(rows, rows[k].id, nuevo, today, true) == Failure(CheckViolation)
  {
    assert IndexOf(rows, rows[k].id) == Some(k);
  }

  /** Intended: with the date rule applied to new bookings only, an active
      booking can always be marked attended or cancelled, whatever the day. */
  lemma IntendedClosesAnyBooking(rows: seq<ProfCita>, id: int, nuevo: string, today: Date)
    requires ActiveSlotsUnique(rows) && IdsDistinct(rows)
    requires exists i :: 0 <= i < |rows| && rows[i].id == id && ActiveEstado(rows[i].estado)
    requires nuevo == Atendida || nuevo == Cancelada
    ensures EstadoUpdate(rows, id, nuevo, today, false).Success?
  {
    var i :| 0 <= i < |rows| && rows[i].id == id && ActiveEstado(rows[i].estado);
    var k := IndexOf(rows, id).value;
    assert k == i;
    if ActiveEstado(nuevo) && ActiveSlotHeld(rows, k, rows[k].profesional, rows[k].fecha, rows[k].hora) {
      var j :| 0 <= j < |rows| && j != k && ActiveEstado(rows[j].estado)
        && rows[j].profesional == rows[k].profesional && rows[j].fecha == rows[k].fecha && rows[j].hora == rows[k].hora;
      assert SameSlot(rows[j], rows[k]);
      assert false;
    }
  }

  /** `(fecha, hora)` order, as `ORDER BY fecha, hora`. */
  predicate NotAfter(a: ProfCita, b: ProfCita)
  {
    a.fecha < b.fecha || (a.fecha == b.fecha && a.hora <= b.hora)
  }

  predicate Sorted(rows: seq<ProfCita>)
  {
    forall i, j :: 0 <= i < j < |rows| ==> NotAfter(rows[i], rows[j])
  }

  /** Inserts a row into a sorted list after every row not after it. */
  function InsertSorted(c: ProfCita, rows: seq<ProfCita>): (r: seq<ProfCita>)
    ensures multiset(r) == multiset(rows) + multiset{c}
  {
    if rows == [] then [c]
    else if NotAfter(c, rows[0]) then [c] + rows
    else
      assert rows == [rows[0]] + rows[1..];
      [rows[0]] + InsertSorted(c, rows[1..])
  }

  lemma {:induction false} InsertSortedSorted(c: ProfCita, rows: seq<ProfCita>)
    requires Sorted(rows)
    ensures Sorted(InsertSorted(c, rows))
  {
    if rows != [] && !NotAfter(c, rows[0]) {
      var t := InsertSorted(c, rows[1..]);
      InsertSortedSorted(c, rows[1..]);
      assert forall x :: x in t ==> NotAfter(rows[0], x) by {
        forall x | x in t ensures NotAfter(rows[0], x) {
          assert x in multiset(t);
          if x != c {
            assert x in multiset(rows[1..]);
            var m :| 0 <= m < |rows[1..]| && rows[1..][m] == x;
            assert rows[m + 1] == x;
          }
        }
      }
      var r := [rows[0]] + t;
      forall i, j | 0 <= i < j < |r| ensures NotAfter(r[i], r[j]) {
        if i == 0 {
          assert r[j] == t[j - 1] && r[j] in t;
        } else {
          assert r[i] == t[i - 1] && r[j] == t[j - 1];
        }
      }
    }
  }

  /** The rows in `(fecha, hora)` order. */
  function SortByFechaHora(rows: seq<ProfCita>): (r: seq<ProfCita>)
    ensures multiset(r) == multiset(rows)
  {
    if rows == [] then []
    else
      assert rows == [rows[0]] + rows[1..];
      InsertSorted(rows[0], SortByFechaHora(rows[1..]))
  }

  lemma {:induction false} SortSorted(rows: seq<ProfCita>)
    ensures Sorted(SortByFechaHora(rows))
  {
    if rows != [] {
      SortSorted(rows[1..]);
      InsertSortedSorted(rows[0], SortByFechaHora(rows[1..]));
    }
  }

  /** `if x:` in Python: a missing or empty filter does not restrict. */
  predicate Given(s: Option<string>)
  {
    s.Some? && s.value != ""
  }

  /** One WHERE clause `listar_citas` may add. */
  datatype Filter = ByFecha(fecha: Date) | ByProfesional(profesional: string) | ByEstado(estado: string)

  predicate Holds(f: Filter, c: ProfCita)
  {
    match f
    case ByFecha(d) => c.fecha == d
    case ByProfesional(p) => c.profesional == p
    case ByEstado(e) => c.estado == e
  }

  function Select(rows: seq<ProfCita>, fs: seq<Filter>): (r: seq<ProfCita>)
    ensures forall c :: c in r <==> c in rows && forall f :: f in fs ==> Holds(f, c)
    ensures multiset(r) <= multiset(rows)
  {
    if rows == [] then []
    else
      var rest := Select(rows[1..], fs);
      assert rows == [rows[0]] + rows[1..];
      if forall f :: f in fs ==> Holds(f, rows[0]) then [rows[0]] + rest else rest
  }

  /** The row passes every filter that was given. */
  predicate MatchesAll(c: ProfCita, fecha: Option<Date>, profesional: Option<string>, estado: Option<string>)
  {
    && (fecha.Some? ==> c.fecha == fecha.value)
    && (Given(profesional) ==> c.profesional == profesional.value)
    && (Given(estado) ==> c.estado == estado.value)
  }

  /** The rows passing every given filter, in table order. */
  function Matching(rows: seq<ProfCita>, fecha: Option<Date>, profesional: Option<string>, estado: Option<string>): (r: seq<ProfCita>)
    ensures forall c :: c in r <==> c in rows && MatchesAll(c, fecha, profesional, estado)
  {
    if rows == [] then []
    else
      var rest := Matching(rows[1..], fecha, profesional, estado);
      assert rows == [rows[0]] + rows[1..];
      if MatchesAll(rows[0], fecha, profesional, estado) then [rows[0]] + rest else rest
  }

  /** With no filter given (missing, or an empty string), every row matches. */
  lemma {:induction false} MatchingAll(rows: seq<ProfCita>, profesional: Option<string>, estado: Option<string>)
    requires !Given(profesional) && !Given(estado)
    ensures Matching(rows, None, profesional, estado) == rows
  {
    if rows != [] {
      MatchingAll(rows[1..], profesional, estado);
    }
  }

  lemma {:induction false} SelectIsMatching(rows: seq<ProfCita>, filters: seq<Filter>, fecha: Option<Date>, profesional: Option<string>, estado: Option<string>)
    requires forall c :: (forall f :: f in filters ==> Holds(f, c)) <==> MatchesAll(c, fecha, profesional, estado)
    ensures Select(rows, filters) == Matching(rows, fecha, profesional, estado)
  {
    if rows != [] {
      SelectIsMatching(rows[1..], filters, fecha, profesional, estado);
    }
  }

  /** `listar_citas`: the WHERE clause grows one filter per given argument;
      exactly the rows matching all of them (with their multiplicity) come
      back in `(fecha, hora)` order. */
  method ListarCitas(rows: seq<ProfCita>, fecha: Option<Date>, profesional: Option<string>, estado: Option<string>) returns (res: seq<ProfCita>)
    ensures Sorted(res)
    ensures multiset(res) == multiset(Matching(rows, fecha, profesional, estado))
  {
    var filters := WhereClauses(fecha, profesional, estado);
    forall c ensures (forall f :: f in filters ==> Holds(f, c)) <==> MatchesAll(c, fecha, profesional, estado) {
      FiltersMeaning(filters, c, fecha, profesional, estado);
    }
    SelectIsMatching(rows, filters, fecha, profesional, estado);
    var selected := Select(rows, filters);
    res := SortByFechaHora(selected);
    SortSorted(selected);
  }

  /** The clauses `listar_citas` appends, one per given argument, in the order
      fecha, profesional, estado. */
  method WhereClauses(fecha: Option<Date>, profesional: Option<string>, estado: Option<string>) returns (filters: seq<Filter>)
    ensures forall f :: f in filters ==> Requested(f, fecha, profesional, estado)
    ensures fecha.Some? ==> ByFecha(fecha.value) in filters
    ensures Given(profesional) ==> ByProfesional(profesional.value) in filters
    ensures Given(estado) ==> ByEstado(estado.value) in filters
  {
    filters := [];
    if fecha.Some? {
      filters := filters + [ByFecha(fecha.value)];
    }
    if Given(profesional) {
      filters := filters + [ByProfesional(profesional.value)];
    }
    if Given(estado) {
      filters := filters + [ByEstado(estado.value)];
    }
  }

  /** The filter was asked for by the call's arguments. */
  predicate Requested(f: Filter, fecha: Option<Date>, profesional: Option<string>, estado: Option<string>)
  {
    match f
    case ByFecha(d) => fecha == Some(d)
    case ByProfesional(p) => Given(profesional) && profesional.value == p
    case ByEstado(e) => Given(estado) && estado.value == e
  }

  lemma FiltersMeaning(filters: seq<Filter>, c: ProfCita, fecha: Option<Date>, profesional: Option<string>, estado: Option<string>)
    requires forall f :: f in filters ==> Requested(f, fecha, profesional, estado)
    requires fecha.Some? ==> ByFecha(fecha.value) in filters
    requires Given(profesional) ==> ByProfesional(profesional.value) in filters
    requires Given(estado) ==> ByEstado(estado.value) in filters
    ensures (forall f :: f in filters ==> Holds(f, c)) <==> MatchesAll(c, fecha, profesional, estado)
  {
    if forall f :: f in filters ==> Holds(f, c) {
      if fecha.Some? {
        assert Holds(ByFecha(fecha.value), c);
      }
      if Given(profesional) {
        assert Holds(ByProfesional(profesional.value), c);
      }
      if Given(estado) {
        assert Holds(ByEstado(estado.value), c);
      }
    }
  }

  /** The table of bd_utils.py. */
  class Agenda {
    var citas: seq<ProfCita>
    var nextId: int

    ghost predicate Valid()
      reads this
    {
      ActiveSlotsUnique(citas) && IdsBelow(citas, nextId)
    }

    constructor ()
      ensures Valid() && citas == [] && nextId == 1
    {
      citas := [];
      nextId := 1;
    }

    /** `crear_cita`: a new `reservada` row; the id is drawn before the CHECK
        and the index are consulted, so it is used up even when they refuse. */
    method CrearCita(pacienteNombre: string, pacienteTelefono: string, motivo: string,
                     fecha: Date, hora: Time, profesional: string, today: Date) returns (r: DbResult<int>)
      requires Valid()
      modifies this
      ensures Valid()
      ensures var c := ProfCita(old(nextId), pacienteNombre, pacienteTelefono, motivo, profesional, fecha, hora, Reservada);
        match InsertError(old(citas), c, today)
        case None => r == Success(old(nextId)) && citas == old(citas) + [c]
        case Some(e) => r == Failure(e) && citas == old(citas)
      ensures nextId == old(nextId) + 1
    {
      var id := nextId;
      nextId := nextId + 1;
      var c := ProfCita(id, pacienteNombre, pacienteTelefono, motivo, profesional, fecha, hora, Reservada);
      var e := InsertError(citas, c, today);
      if e.Some? {
        return Failure(e.value);
      }
      InsertKeepsUnique(citas, c, today);
      citas := citas + [c];
      r := Success(id);
    }

    /** `cambiar_estado_cita` as written: the CHECK applies to the UPDATE. */
    method CambiarEstadoCita(citaId: int, nuevo: string, today: Date) returns (err: Option<WriteError>)
      requires Valid()
      modifies this
      ensures Valid()
      ensures match EstadoUpdate(old(citas), citaId, nuevo, today, true)
        case Success(after) => citas == after && err == None
        case Failure(e) => citas == old(citas) && err == Some(e)
      ensures nextId == old(nextId)
    {
      err := SetEstado(citaId, nuevo, today, true);
    }

    /** `cambiar_estado_cita` with the date rule limited to new bookings. */
    method CambiarEstadoCitaIntended(citaId: int, nuevo: string, today: Date) returns (err: Option<WriteError>)
      requires Valid()
      modifies this
      ensures Valid()
      ensures match EstadoUpdate(old(citas), citaId, nuevo, today, false)
        case Success(after) => citas == after && err == None
        case Failure(e) => citas == old(citas) && err == Some(e)
      ensures nextId == old(nextId)
    {
      err := SetEstado(citaId, nuevo, today, false);
    }

    method SetEstado(citaId: int, nuevo: string, today: Date, checkOnUpdate: bool) returns (err: Option<WriteError>)
      requires Valid()
      modifies this
      ensures Valid()
      ensures match EstadoUpdate(old(citas), citaId, nuevo, today, checkOnUpdate)
        case Success(after) => citas == after && err == None
        case Failure(e) => citas == old(citas) && err == Some(e)
      ensures nextId == old(nextId)
    {
      var u := EstadoUpdate(citas, citaId, nuevo, today, checkOnUpdate);
      if u.Failure? {
        return Some(u.error);
      }
      EstadoUpdateKeepsUnique(citas, citaId, nuevo, today, checkOnUpdate);
      assert IdsBelow(u.value, nextId) by {
        EstadoUpdateOnlyEstado(citas, citaId, nuevo, today, checkOnUpdate);
      }
      citas := u.value;
      err := None;
    }
  }
}
