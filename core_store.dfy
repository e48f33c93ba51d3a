/** The booking store of modules/core.py: the `pacientes` and `citas` tables
    as an in-memory object whose schema constraints are its invariant, and the
    operations that read and write them. */
module CoreStore {
  import opened Common
  import opened Text
  import opened Citas

  /** A row of `pacientes`: id, name and normalised phone (the password hash,
      which only login reads, is not part of this model). */
  datatype Paciente = Paciente(id: int, nombre: string, telefono: string)

  /** `id SERIAL PRIMARY KEY` and `telefono TEXT NOT NULL UNIQUE`. */
  predicate PacientesValid(ps: seq<Paciente>, next: int)
  {
    && (forall i :: 0 <= i < |ps| ==> ps[i].id < next)
    && (forall i, j :: 0 <= i < j < |ps| ==> ps[i].id != ps[j].id && ps[i].telefono != ps[j].telefono)
  }

  predicate PacienteExists(ps: seq<Paciente>, pid: int)
  {
    exists i :: 0 <= i < |ps| && ps[i].id == pid
  }

  /** `paciente_id INTEGER REFERENCES pacientes(id)`. */
  predicate ForeignKeys(rows: seq<Cita>, ps: seq<Paciente>)
  {
    forall i :: 0 <= i < |rows| && rows[i].pacienteId.Some? ==> PacienteExists(ps, rows[i].pacienteId.value)
  }

  /** `SELECT id FROM pacientes WHERE telefono=%s LIMIT 1`. */
  function PhoneOwner(ps: seq<Paciente>, tel: string): (r: Option<int>)
    ensures r.None? <==> forall i :: 0 <= i < |ps| ==> ps[i].telefono != tel
    ensures r.Some? ==> exists i :: 0 <= i < |ps| && ps[i].telefono == tel && ps[i].id == r.value
  {
    if ps == [] then None
    else if ps[0].telefono == tel then Some(ps[0].id)
    else
      var r := PhoneOwner(ps[1..], tel);
      assert forall i :: 0 < i < |ps| ==> ps[i] == ps[1..][i - 1];
      r
  }

  /** The patients table after a find-or-create, the sequence's next value, and
      the id returned. */
  datatype Resolved = Resolved(pacientes: seq<Paciente>, next: int, id: int)

  /** Find-or-create on a name and phone already cleaned: the id of the
      patient with that phone, appending one patient when there is none. */
  function Resolve(ps: seq<Paciente>, next: int, nombre: string, tel: string): (r: Resolved)
    ensures exists i :: 0 <= i < |r.pacientes| && r.pacientes[i].id == r.id && r.pacientes[i].telefono == tel
    ensures (exists i :: 0 <= i < |ps| && ps[i].telefono == tel) ==> r.pacientes == ps && r.next == next
    ensures (forall i :: 0 <= i < |ps| ==> ps[i].telefono != tel) ==>
              && r.pacientes == ps + [Paciente(next, nombre, tel)]
              && r.id == next && r.next == next + 1
  {
    match PhoneOwner(ps, tel)
    case Some(id) => Resolved(ps, next, id)
    case None =>
      var ps' := ps + [Paciente(next, nombre, tel)];
      assert ps'[|ps|].telefono == tel;
      Resolved(ps', next + 1, next)
  }

  /** `crear_o_encontrar_paciente`: the id of the patient with that normalised
      phone, inserting the patient (name stripped) when there is none. */
  function FindOrCreate(ps: seq<Paciente>, next: int, nombre: string, telefono: string): (r: Resolved)
    ensures exists i :: 0 <= i < |r.pacientes| && r.pacientes[i].id == r.id && r.pacientes[i].telefono == NormalizeTel(telefono)
    ensures (exists i :: 0 <= i < |ps| && ps[i].telefono == NormalizeTel(telefono)) ==> r.pacientes == ps && r.next == next
    ensures (forall i :: 0 <= i < |ps| ==> ps[i].telefono != NormalizeTel(telefono)) ==>
              && r.pacientes == ps + [Paciente(next, Strip(nombre), NormalizeTel(telefono))]
              && r.id == next && r.next == next + 1
  {
    Resolve(ps, next, Strip(nombre), NormalizeTel(telefono))
  }

  /** Find-or-create keeps phones unique and ids below the sequence, and every
      patient id that existed still exists. */
  lemma ResolveKeeps(ps: seq<Paciente>, next: int, nombre: string, tel: string)
    requires PacientesValid(ps, next)
    ensures var r := Resolve(ps, next, nombre, tel);
      && PacientesValid(r.pacientes, r.next)
      && (forall pid :: PacienteExists(ps, pid) ==> PacienteExists(r.pacientes, pid))
  {
    var r := Resolve(ps, next, nombre, tel);
    if PhoneOwner(ps, tel).None? {
      var p := Paciente(next, nombre, tel);
      assert r.pacientes == ps + [p];
      AppendPacienteValid(ps, next, p);
    }
    forall pid | PacienteExists(ps, pid) ensures PacienteExists(r.pacientes, pid) {
      var i :| 0 <= i < |ps| && ps[i].id == pid;
      assert r.pacientes[i] == ps[i];
    }
  }

  /** The same, for the raw name and phone of `crear_o_encontrar_paciente`. */
  lemma FindOrCreateKeeps(ps: seq<Paciente>, next: int, nombre: string, telefono: string)
    requires PacientesValid(ps, next)
    ensures var r := FindOrCreate(ps, next, nombre, telefono);
      && PacientesValid(r.pacientes, r.next)
      && (forall pid :: PacienteExists(ps, pid) ==> PacienteExists(r.pacientes, pid))
  {
    ResolveKeeps(ps, next, Strip(nombre), NormalizeTel(telefono));
  }

  /** Appending a patient with a fresh id and an unused phone keeps the table valid. */
  lemma AppendPacienteValid(ps: seq<Paciente>, next: int, p: Paciente)
    requires PacientesValid(ps, next)
    requires p.id == next
    requires forall i :: 0 <= i < |ps| ==> ps[i].telefono != p.telefono
    ensures PacientesValid(ps + [p], next + 1)
  {
    var ps' := ps + [p];
    forall i, j | 0 <= i < j < |ps'| ensures ps'[i].id != ps'[j].id && ps'[i].telefono != ps'[j].telefono {
      if j < |ps| {
        assert ps'[i] == ps[i] && ps'[j] == ps[j];
      } else {
        assert ps'[i] == ps[i] && ps'[j] == p;
      }
    }
  }

  /** Resolving the same phone a second time, under any name, returns the
      same id and adds nobody. */
  lemma {:induction false} ResolveIdempotent(ps: seq<Paciente>, next: int, n1: string, n2: string, tel: string)
    requires PacientesValid(ps, next)
    ensures var r1 := Resolve(ps, next, n1, tel);
      Resolve(r1.pacientes, r1.next, n2, tel) == r1
  {
    var r1 := Resolve(ps, next, n1, tel);
    ResolveKeeps(ps, next, n1, tel);
    var i :| 0 <= i < |r1.pacientes| && r1.pacientes[i].id == r1.id && r1.pacientes[i].telefono == tel;
    var o := PhoneOwner(r1.pacientes, tel);
    var j :| 0 <= j < |r1.pacientes| && r1.pacientes[j].telefono == tel && r1.pacientes[j].id == o.value;
    assert i == j;
  }

  /** Resolving the same phone twice (in any spelling that normalises alike)
      gives the same id and adds nobody the second time. */
  lemma {:induction false} FindOrCreateIdempotent(ps: seq<Paciente>, next: int, n1: string, t1: string, n2: string, t2: string)
    requires PacientesValid(ps, next)
    requires NormalizeTel(t1) == NormalizeTel(t2)
    ensures var r1 := FindOrCreate(ps, next, n1, t1);
      var r2 := FindOrCreate(r1.pacientes, r1.next, n2, t2);
      r2 == r1
  {
    ResolveIdempotent(ps, next, Strip(n1), Strip(n2), NormalizeTel(t1));
  }

  /** The INSERT of a booking, with PostgreSQL's order of checks: the unique
      index on `(fecha, hora)` first, the foreign key at the end of the
      statement. */
  function InsertOutcome(rows: seq<Cita>, ps: seq<Paciente>, fecha: Date, hora: Time, pid: Option<int>): Outcome
  {
    if SlotBooked(rows, fecha, hora) then SlotTaken
    else if pid.Some? && !PacienteExists(ps, pid.value) then UnknownPatient
    else Ok
  }

  /** `agendar_cita_autenticado`: the lead-time rule, then the same-day rule,
      then the seven-day window, then the INSERT. */
  function AuthBookingOutcome(rows: seq<Cita>, ps: seq<Paciente>, fecha: Date, hora: Time, pid: int, today: Date): Outcome
  {
    if !IsFechaPermitida(fecha, today) then IneligibleDate
    else if HasCitaOnDay(rows, pid, fecha) then FrequencyViolation(SameDay)
    else if HasCitaInWindow(rows, pid, fecha) then FrequencyViolation(Within7Days)
    else InsertOutcome(rows, ps, fecha, hora, Some(pid))
  }

  /** A self-service booking succeeds exactly when the date is at least two
      days ahead, the patient has no booking from six days before to six days
      after it, the slot is free and the patient exists. */
  lemma AuthBookingOkIff(rows: seq<Cita>, ps: seq<Paciente>, fecha: Date, hora: Time, pid: int, today: Date)
    ensures AuthBookingOutcome(rows, ps, fecha, hora, pid, today) == Ok <==>
              && fecha >= today + 2
              && (forall i :: 0 <= i < |rows| && rows[i].pacienteId == Some(pid) ==> rows[i].fecha < fecha - 6 || rows[i].fecha > fecha + 6)
              && !SlotBooked(rows, fecha, hora)
              && PacienteExists(ps, pid)
  {
  }

  /** The frequency boundary: a patient booked on day `t` is refused on every
      day from `t - 6` to `t + 6` (the same-day message on `t` itself), and,
      when that is the patient's only booking, is not refused for frequency
      from `t + 7` or up to `t - 7`. */
  lemma FrequencyBoundary(rows: seq<Cita>, ps: seq<Paciente>, k: int, pid: int, fecha: Date, hora: Time, today: Date)
    requires 0 <= k < |rows| && rows[k].pacienteId == Some(pid)
    requires IsFechaPermitida(fecha, today)
    ensures fecha == rows[k].fecha ==>
              AuthBookingOutcome(rows, ps, fecha, hora, pid, today) == FrequencyViolation(SameDay)
    ensures rows[k].fecha - 6 <= fecha <= rows[k].fecha + 6 ==>
              AuthBookingOutcome(rows, ps, fecha, hora, pid, today).FrequencyViolation?
    ensures (forall i :: 0 <= i < |rows| && rows[i].pacienteId == Some(pid) ==> i == k) &&
            (fecha >= rows[k].fecha + 7 || fecha <= rows[k].fecha - 7) ==>
              !AuthBookingOutcome(rows, ps, fecha, hora, pid, today).FrequencyViolation?
  {
  }

  /** The in-memory database of modules/core.py. */
  class Agenda {
    var citas: seq<Cita>
    var pacientes: seq<Paciente>
    /** Next values of the two SERIAL sequences. */
    var nextCitaId: int
    var nextPacienteId: int

    /** The schema's constraints. */
    ghost predicate Valid()
      reads this
    {
      && SlotsUnique(citas) && IdsBelow(citas, nextCitaId)
      && PacientesValid(pacientes, nextPacienteId)
      && ForeignKeys(citas, pacientes)
    }

    /** Empty tables; SERIAL sequences start at 1. */
    constructor ()
      ensures Valid()
      ensures citas == [] && pacientes == [] && nextCitaId == 1 && nextPacienteId == 1
    {
      citas, pacientes := [], [];
      nextCitaId, nextPacienteId := 1, 1;
    }

    /** `crear_o_encontrar_paciente`. */
    method CrearOEncontrarPaciente(nombre: string, telefono: string) returns (pid: int)
      requires Valid()
      modifies this
      ensures Valid()
      ensures var r := FindOrCreate(old(pacientes), old(nextPacienteId), nombre, telefono);
        pacientes == r.pacientes && nextPacienteId == r.next && pid == r.id
      ensures citas == old(citas) && nextCitaId == old(nextCitaId)
    {
      var nm, tel := Strip(nombre), NormalizeTel(telefono);
      pid := Register(nm, tel);
    }

    /** The SELECT and the INSERT of `crear_o_encontrar_paciente`, on the
        stripped name and the normalised phone. */
    method Register(nm: string, tel: string) returns (pid: int)
      requires Valid()
      modifies this
      ensures Valid()
      ensures var r := Resolve(old(pacientes), old(nextPacienteId), nm, tel);
        pacientes == r.pacientes && nextPacienteId == r.next && pid == r.id
      ensures citas == old(citas) && nextCitaId == old(nextCitaId)
    {
      ghost var r := Resolve(pacientes, nextPacienteId, nm, tel);
      ResolveKeeps(pacientes, nextPacienteId, nm, tel);
      ForeignKeysGrow(citas, pacientes, r.pacientes);
      var found := PhoneOwner(pacientes, tel);
      if found.Some? {
        pid := found.value;
      } else {
        pid := nextPacienteId;
        pacientes := pacientes + [Paciente(pid, nm, tel)];
        nextPacienteId := nextPacienteId + 1;
      }
      assert pacientes == r.pacientes && nextPacienteId == r.next && pid == r.id;
    }

    /** `agendar_cita_autenticado`: refused (table unchanged) by the lead-time
        rule, the same-day rule and the seven-day window, in that order; the
        INSERT then draws a SERIAL value whether or not it succeeds. */
    method AgendarCitaAutenticado(fecha: Date, hora: Time, pid: int, nota: Option<string>, today: Date) returns (o: Outcome)
      requires Valid()
      modifies this
      ensures Valid()
      ensures o == AuthBookingOutcome(old(citas), old(pacientes), fecha, hora, pid, today)
      ensures o == Ok ==> citas == old(citas) + [Cita(old(nextCitaId), fecha, hora, Some(pid), nota)]
      ensures o != Ok ==> citas == old(citas)
      ensures nextCitaId == if o.IneligibleDate? || o.FrequencyViolation? then old(nextCitaId) else old(nextCitaId) + 1
      ensures pacientes == old(pacientes) && nextPacienteId == old(nextPacienteId)
    {
      if !IsFechaPermitida(fecha, today) {
        return IneligibleDate;
      }
      if HasCitaOnDay(citas, pid, fecha) {
        return FrequencyViolation(SameDay);
      }
      if HasCitaInWindow(citas, pid, fecha) {
        return FrequencyViolation(Within7Days);
      }
      o := Insert(fecha, hora, Some(pid), nota);
    }

    /** `crear_cita_manual`: no lead-time or frequency rule; the patient is
        resolved (and kept even if the INSERT then fails), and only the slot's
        uniqueness can refuse the booking. */
    method CrearCitaManual(fecha: Date, hora: Time, nombre: string, telefono: string, nota: Option<string>) returns (o: Outcome)
      requires Valid()
      modifies this
      ensures Valid()
      ensures var r := FindOrCreate(old(pacientes), old(nextPacienteId), nombre, telefono);
        && pacientes == r.pacientes && nextPacienteId == r.next
        && o == (if SlotBooked(old(citas), fecha, hora) then SlotTaken else Ok)
        && citas == (if o == Ok then old(citas) + [Cita(old(nextCitaId), fecha, hora, Some(r.id), nota)] else old(citas))
      ensures nextCitaId == old(nextCitaId) + 1
    {
      var pid := CrearOEncontrarPaciente(nombre, telefono);
      o := Insert(fecha, hora, Some(pid), nota);
    }

    /** `INSERT INTO citas(...)`: draws the next id, then either raises on the
        unique index or the foreign key, or appends the row. */
    method Insert(fecha: Date, hora: Time, pid: Option<int>, nota: Option<string>) returns (o: Outcome)
      requires Valid()
      modifies this
      ensures Valid()
      ensures o == InsertOutcome(old(citas), old(pacientes), fecha, hora, pid)
      ensures o == Ok ==> citas == old(citas) + [Cita(old(nextCitaId), fecha, hora, pid, nota)]
      ensures o != Ok ==> citas == old(citas)
      ensures nextCitaId == old(nextCitaId) + 1
      ensures pacientes == old(pacientes) && nextPacienteId == old(nextPacienteId)
    {
      var id := nextCitaId;
      nextCitaId := nextCitaId + 1;
      o := InsertOutcome(citas, pacientes, fecha, hora, pid);
      if o == Ok {
        var c := Cita(id, fecha, hora, pid, nota);
        assert TryInsert(citas, c).Some?;
        citas := citas + [c];
      }
    }

    /** `actualizar_cita`: resolves the patient, then sets `paciente_id` and
        `nota` of the row with that id (no row, no change). */
    method ActualizarCita(citaId: int, nombre: string, telefono: string, nota: Option<string>)
      requires Valid()
      modifies this
      ensures Valid()
      ensures var r := FindOrCreate(old(pacientes), old(nextPacienteId), nombre, telefono);
        && pacientes == r.pacientes && nextPacienteId == r.next
        && citas == Updated(old(citas), citaId, Some(r.id), nota)
      ensures nextCitaId == old(nextCitaId)
    {
      var pid := CrearOEncontrarPaciente(nombre, telefono);
      SetPaciente(citaId, pid, nota);
    }

    /** `UPDATE citas SET paciente_id=%s, nota=%s WHERE id=%s` for a patient
        that exists. */
    method SetPaciente(citaId: int, pid: int, nota: Option<string>)
      requires Valid() && PacienteExists(pacientes, pid)
      modifies this
      ensures Valid()
      ensures citas == Updated(old(citas), citaId, Some(pid), nota)
      ensures pacientes == old(pacientes) && nextCitaId == old(nextCitaId) && nextPacienteId == old(nextPacienteId)
    {
      var rows := Updated(citas, citaId, Some(pid), nota);
      assert IdsBelow(rows, nextCitaId);
      assert ForeignKeys(rows, pacientes) by {
        forall i | 0 <= i < |rows| && rows[i].pacienteId.Some?
          ensures PacienteExists(pacientes, rows[i].pacienteId.value)
        {
          if citas[i].id != citaId {
            assert rows[i] == citas[i];
          }
        }
      }
      citas := rows;
    }

    /** `eliminar_cita`: removes the row with that id and returns how many rows
        went, 0 when it was already gone ("La cita ya no existía"). */
    method EliminarCita(citaId: int) returns (n: nat)
      requires Valid()
      modifies this
      ensures Valid()
      ensures citas == Removed(old(citas), citaId)
      ensures n == if exists i :: 0 <= i < |old(citas)| && old(citas)[i].id == citaId then 1 else 0
      ensures pacientes == old(pacientes) && nextCitaId == old(nextCitaId) && nextPacienteId == old(nextPacienteId)
    {
      var rows := Removed(citas, citaId);
      RemovedCount(citas, citaId, nextCitaId);
      RemovedKeeps(citas, citaId, nextCitaId);
      assert ForeignKeys(rows, pacientes) by {
        forall i | 0 <= i < |rows| && rows[i].pacienteId.Some?
          ensures PacienteExists(pacientes, rows[i].pacienteId.value)
        {
          assert rows[i] in citas;
        }
      }
      n := |citas| - |rows|;
      citas := rows;
    }
  }

  lemma ForeignKeysGrow(rows: seq<Cita>, ps: seq<Paciente>, ps': seq<Paciente>)
    requires ForeignKeys(rows, ps)
    requires forall pid :: PacienteExists(ps, pid) ==> PacienteExists(ps', pid)
    ensures ForeignKeys(rows, ps')
  {
  }
}
