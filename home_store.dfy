/** The earlier single-file store of Home.py, and app_gestion_citas/db_utils.py,
    which repeats its operations. Patients are keyed on the exact
    `(nombre, telefono)` pair, which the schema does not make unique, and
    slots run every 30 minutes from 09:00 to 17:00 inclusive, every day. */
module HomeStore {
  import opened Common
  import opened Progression
  import opened Text
  import opened Citas
  import opened CoreStore

  const HoraInicio: Time := 540
  const HoraFin: Time := 1020

  /** `generar_slots` of Home.py: `while t <= fin`, so the end point is a slot. */
  method GenerarSlots(fecha: Date) returns (slots: seq<Time>)
    ensures slots == Steps(HoraInicio, HoraFin, PasoMin)
    ensures StrictlyAscending(slots)
    ensures forall t :: t in slots ==> HoraInicio <= t <= HoraFin && (t - HoraInicio) % PasoMin == 0
  {
    slots := [];
    var t := HoraInicio;
    while t <= HoraFin
      invariant slots + Steps(t, HoraFin, PasoMin) == Steps(HoraInicio, HoraFin, PasoMin)
      decreases HoraFin - t
    {
      StepsPeel(slots, t, HoraFin, PasoMin);
      slots := slots + [t];
      t := t + PasoMin;
    }
    StepsOnGrid(HoraInicio, HoraFin);
    StepsAscending(HoraInicio, HoraFin, PasoMin);
  }

  /** Every day has the same seventeen slots, 09:00 to 17:00. */
  lemma HomeSlots()
    ensures Steps(HoraInicio, HoraFin, PasoMin) ==
      [Hm(9, 0), Hm(9, 30), Hm(10, 0), Hm(10, 30), Hm(11, 0), Hm(11, 30), Hm(12, 0), Hm(12, 30),
       Hm(13, 0), Hm(13, 30), Hm(14, 0), Hm(14, 30), Hm(15, 0), Hm(15, 30), Hm(16, 0), Hm(16, 30),
       Hm(17, 0)]
    ensures |Steps(HoraInicio, HoraFin, PasoMin)| == 17
  {
    assert Steps(810, 1020, 30) == [810, 840, 870, 900, 930, 960, 990, 1020];
    assert Steps(540, 1020, 30) == [540, 570, 600, 630, 660, 690, 720, 750, 780] + Steps(810, 1020, 30);
  }

  /** The patient row matches the pair exactly (no normalisation). */
  predicate Matches(p: Paciente, nombre: string, telefono: string)
  {
    p.nombre == nombre && p.telefono == telefono
  }

  /** `id SERIAL PRIMARY KEY`; phones are not unique here. */
  predicate IdsValid(ps: seq<Paciente>, next: int)
  {
    && (forall i :: 0 <= i < |ps| ==> ps[i].id < next)
    && (forall i, j :: 0 <= i < j < |ps| ==> ps[i].id != ps[j].id)
  }

  /** `SELECT id ... WHERE nombre = %s AND telefono = %s LIMIT 1`: some
      matching row (the query has no ORDER BY; the first is taken here). */
  function PairOwner(ps: seq<Paciente>, nombre: string, telefono: string): (r: Option<int>)
    ensures r.None? <==> forall i :: 0 <= i < |ps| ==> !Matches(ps[i], nombre, telefono)
    ensures r.Some? ==> exists i :: 0 <= i < |ps| && Matches(ps[i], nombre, telefono) && ps[i].id == r.value
  {
    if ps == [] then None
    else if Matches(ps[0], nombre, telefono) then Some(ps[0].id)
    else
      var r := PairOwner(ps[1..], nombre, telefono);
      assert forall i :: 0 < i < |ps| ==> ps[i] == ps[1..][i - 1];
      r
  }

  /** `... ORDER BY id DESC LIMIT 1`: the largest id among matching rows. */
  function NewestOwner(ps: seq<Paciente>, nombre: string, telefono: string): (r: Option<int>)
    ensures r.None? <==> forall i :: 0 <= i < |ps| ==> !Matches(ps[i], nombre, telefono)
    ensures r.Some? ==> exists i :: 0 <= i < |ps| && Matches(ps[i], nombre, telefono) && ps[i].id == r.value
    ensures r.Some? ==> forall i :: 0 <= i < |ps| && Matches(ps[i], nombre, telefono) ==> ps[i].id <= r.value
  {
    if ps == [] then None
    else
      var n := |ps| - 1;
      var r := NewestOwner(ps[..n], nombre, telefono);
      assert forall i :: 0 <= i < n ==> ps[i] == ps[..n][i];
      if Matches(ps[n], nombre, telefono) && (r.None? || r.value < ps[n].id) then Some(ps[n].id) else r
  }

  /** In the table just appended to, the newest row with the pair is the new
      one, so db_utils.py's re-select returns the id the INSERT produced. */
  lemma NewestIsInserted(ps: seq<Paciente>, next: int, nombre: string, telefono: string)
    requires IdsValid(ps, next)
    ensures NewestOwner(ps + [Paciente(next, nombre, telefono)], nombre, telefono) == Some(next)
  {
    var ps' := ps + [Paciente(next, nombre, telefono)];
    var r := NewestOwner(ps', nombre, telefono);
    assert Matches(ps'[|ps|], nombre, telefono);
    var i :| 0 <= i < |ps'| && Matches(ps'[i], nombre, telefono) && ps'[i].id == r.value;
    assert ps'[|ps|].id <= r.value;
    if i < |ps| {
      assert ps'[i] == ps[i];
    }
  }

  /** Home.py's find-or-create on values: the id of a row with exactly that
      pair (some such row), or of one new row. */
  function FindOrCreatePair(ps: seq<Paciente>, next: int, nombre: string, telefono: string): (r: Resolved)
    ensures exists i :: 0 <= i < |r.pacientes| && Matches(r.pacientes[i], nombre, telefono) && r.pacientes[i].id == r.id
    ensures (exists i :: 0 <= i < |ps| && Matches(ps[i], nombre, telefono)) ==> r.pacientes == ps && r.next == next
    ensures (forall i :: 0 <= i < |ps| ==> !Matches(ps[i], nombre, telefono)) ==>
              r.pacientes == ps + [Paciente(next, nombre, telefono)] && r.id == next && r.next == next + 1
  {
    match PairOwner(ps, nombre, telefono)
    case Some(id) => Resolved(ps, next, id)
    case None =>
      var ps' := ps + [Paciente(next, nombre, telefono)];
      assert Matches(ps'[|ps|], nombre, telefono);
      Resolved(ps', next + 1, next)
  }

  /** Find-or-create keeps ids valid, keeps every existing patient, and
      returns the id of a patient that exists afterwards. */
  lemma FindOrCreatePairKeeps(ps: seq<Paciente>, next: int, nombre: string, telefono: string)
    requires IdsValid(ps, next)
    ensures var r := FindOrCreatePair(ps, next, nombre, telefono);
      && IdsValid(r.pacientes, r.next)
      && PacienteExists(r.pacientes, r.id)
      && (forall pid :: PacienteExists(ps, pid) ==> PacienteExists(r.pacientes, pid))
  {
    var r := FindOrCreatePair(ps, next, nombre, telefono);
    forall pid | PacienteExists(ps, pid) ensures PacienteExists(r.pacientes, pid) {
      var i :| 0 <= i < |ps| && ps[i].id == pid;
      assert r.pacientes[i] == ps[i];
    }
  }

  /** Unlike the phone-keyed store, the same phone under another name is a
      different patient: a second row with that phone is created. */
  lemma SamePhoneOtherName(ps: seq<Paciente>, next: int, n1: string, n2: string, telefono: string)
    requires IdsValid(ps, next) && n1 != n2
    requires forall i :: 0 <= i < |ps| ==> ps[i].telefono != telefono
    ensures var r1 := FindOrCreatePair(ps, next, n1, telefono);
      var r2 := FindOrCreatePair(r1.pacientes, r1.next, n2, telefono);
      && r2.id != r1.id
      && r2.pacientes == ps + [Paciente(next, n1, telefono), Paciente(next + 1, n2, telefono)]
  {
    var r1 := FindOrCreatePair(ps, next, n1, telefono);
    assert forall i :: 0 <= i < |r1.pacientes| ==> !Matches(r1.pacientes[i], n2, telefono) by {
      forall i | 0 <= i < |r1.pacientes| ensures !Matches(r1.pacientes[i], n2, telefono) {
        if i < |ps| {
          assert r1.pacientes[i] == ps[i];
        }
      }
    }
  }

  /** The store of Home.py (and app_gestion_citas/db_utils.py). */
  class Agenda {
    var citas: seq<Cita>
    var pacientes: seq<Paciente>
    var nextCitaId: int
    var nextPacienteId: int

    ghost predicate Valid()
      reads this
    {
      && SlotsUnique(citas) && IdsBelow(citas, nextCitaId)
      && IdsValid(pacientes, nextPacienteId)
      && ForeignKeys(citas, pacientes)
    }

    constructor ()
      ensures Valid()
      ensures citas == [] && pacientes == [] && nextCitaId == 1 && nextPacienteId == 1
    {
      citas, pacientes := [], [];
      nextCitaId, nextPacienteId := 1, 1;
    }

    /** `crear_o_encontrar_paciente` of Home.py. */
    method CrearOEncontrarPaciente(nombre: string, telefono: string) returns (pid: int)
      requires Valid()
      modifies this
      ensures Valid()
      ensures var r := FindOrCreatePair(old(pacientes), old(nextPacienteId), nombre, telefono);
        pacientes == r.pacientes && nextPacienteId == r.next && pid == r.id
      ensures citas == old(citas) && nextCitaId == old(nextCitaId)
    {
      ghost var r := FindOrCreatePair(pacientes, nextPacienteId, nombre, telefono);
      FindOrCreatePairKeeps(pacientes, nextPacienteId, nombre, telefono);
      ForeignKeysGrow(citas, pacientes, r.pacientes);
      var found := PairOwner(pacientes, nombre, telefono);
      if found.Some? {
        pid := found.value;
        return;
      }
      pid := nextPacienteId;
      pacientes := pacientes + [Paciente(pid, nombre, telefono)];
      nextPacienteId := nextPacienteId + 1;
    }

    /** `crear_o_encontrar_paciente` of app_gestion_citas/db_utils.py: the
        INSERT returns nothing and the id is re-selected as the newest row
        with the pair; result and new state are those of Home.py's version. */
    method CrearOEncontrarPacienteReselect(nombre: string, telefono: string) returns (pid: int)
      requires Valid()
      modifies this
      ensures Valid()
      ensures var r := FindOrCreatePair(old(pacientes), old(nextPacienteId), nombre, telefono);
        pacientes == r.pacientes && nextPacienteId == r.next && pid == r.id
      ensures citas == old(citas) && nextCitaId == old(nextCitaId)
    {
      ghost var r := FindOrCreatePair(pacientes, nextPacienteId, nombre, telefono);
      FindOrCreatePairKeeps(pacientes, nextPacienteId, nombre, telefono);
      ForeignKeysGrow(citas, pacientes, r.pacientes);
      var found := PairOwner(pacientes, nombre, telefono);
      if found.Some? {
        pid := found.value;
        return;
      }
      NewestIsInserted(pacientes, nextPacienteId, nombre, telefono);
      pacientes := pacientes + [Paciente(nextPacienteId, nombre, telefono)];
      nextPacienteId := nextPacienteId + 1;
      pid := NewestOwner(pacientes, nombre, telefono).value;
    }

    /** `INSERT INTO citas(...)` for a patient just resolved: only the unique
        index can refuse it; the id is drawn either way. */
    method InsertFor(fecha: Date, hora: Time, pid: int, nota: Option<string>) returns (o: Outcome)
      requires Valid() && PacienteExists(pacientes, pid)
      modifies this
      ensures Valid()
      ensures o == (if SlotBooked(old(citas), fecha, hora) then SlotTaken else Ok)
      ensures citas == if o == Ok then old(citas) + [Cita(old(nextCitaId), fecha, hora, Some(pid), nota)] else old(citas)
      ensures nextCitaId == old(nextCitaId) + 1
      ensures pacientes == old(pacientes) && nextPacienteId == old(nextPacienteId)
    {
      var id := nextCitaId;
      nextCitaId := nextCitaId + 1;
      var c := Cita(id, fecha, hora, Some(pid), nota);
      var r := TryInsert(citas, c);
      if r.None? {
        return SlotTaken;
      }
      citas := r.value;
      o := Ok;
    }

    /** `agendar_cita`: refused (nothing written) before two days ahead;
        otherwise `crear_cita_manual`. */
    method AgendarCita(fecha: Date, hora: Time, nombre: string, telefono: string, nota: Option<string>, today: Date) returns (o: Outcome)
      requires Valid()
      modifies this
      ensures Valid()
      ensures !IsFechaPermitida(fecha, today) ==>
                o == IneligibleDate && citas == old(citas) && pacientes == old(pacientes)
                && nextCitaId == old(nextCitaId) && nextPacienteId == old(nextPacienteId)
      ensures IsFechaPermitida(fecha, today) ==>
                var r := FindOrCreatePair(old(pacientes), old(nextPacienteId), Strip(nombre), Strip(telefono));
                && pacientes == r.pacientes && nextPacienteId == r.next
                && o == (if SlotBooked(old(citas), fecha, hora) then SlotTaken else Ok)
                && citas == (if o == Ok then old(citas) + [Cita(old(nextCitaId), fecha, hora, Some(r.id), nota)] else old(citas))
                && nextCitaId == old(nextCitaId) + 1
    {
      if !IsFechaPermitida(fecha, today) {
        return IneligibleDate;
      }
      o := CrearCitaManual(fecha, hora, nombre, telefono, nota);
    }

    /** `crear_cita_manual`: the stripped pair is resolved (the patient stays
        even if the slot then turns out taken), then the booking is inserted;
        no lead-time rule. */
    method CrearCitaManual(fecha: Date, hora: Time, nombre: string, telefono: string, nota: Option<string>) returns (o: Outcome)
      requires Valid()
      modifies this
      ensures Valid()
      ensures var r := FindOrCreatePair(old(pacientes), old(nextPacienteId), Strip(nombre), Strip(telefono));
        && pacientes == r.pacientes && nextPacienteId == r.next
        && o == (if SlotBooked(old(citas), fecha, hora) then SlotTaken else Ok)
        && citas == (if o == Ok then old(citas) + [Cita(old(nextCitaId), fecha, hora, Some(r.id), nota)] else old(citas))
      ensures nextCitaId == old(nextCitaId) + 1
    {
      var pid := CrearOEncontrarPaciente(Strip(nombre), Strip(telefono));
      FindOrCreatePairKeeps(old(pacientes), old(nextPacienteId), Strip(nombre), Strip(telefono));
      o := InsertFor(fecha, hora, pid, nota);
    }

    /** `actualizar_cita`: the stripped pair is resolved, then `paciente_id`
        and `nota` of the row with that id are set. */
    method ActualizarCita(citaId: int, nombre: string, telefono: string, nota: Option<string>)
      requires Valid()
      modifies this
      ensures Valid()
      ensures var r := FindOrCreatePair(old(pacientes), old(nextPacienteId), Strip(nombre), Strip(telefono));
        && pacientes == r.pacientes && nextPacienteId == r.next
        && citas == Updated(old(citas), citaId, Some(r.id), nota)
      ensures nextCitaId == old(nextCitaId)
    {
      var pid := CrearOEncontrarPaciente(Strip(nombre), Strip(telefono));
      FindOrCreatePairKeeps(old(pacientes), old(nextPacienteId), Strip(nombre), Strip(telefono));
      SetPaciente(citaId, pid, nota);
    }

    /** `UPDATE citas SET paciente_id=%s, nota=%s WHERE id=%s` for a patient
        that exists. */
    method SetPaciente(citaId: int, pid: int, nota: Option<string>)
      requires Valid() && PacienteExists(pacientes, pid)
      modifies this
      ensures Valid()
      ensures citas == Updated(old(citas), citaId, Some(pid), nota)
      ensures pacientes == old(pacientes) && nextCitaId == old(nextCitaId) && nextPacienteId == old(nextPacienteId)
    {
      var rows := Updated(citas, citaId, Some(pid), nota);
      assert IdsBelow(rows, nextCitaId);
      assert ForeignKeys(rows, pacientes) by {
        forall i | 0 <= i < |rows| && rows[i].pacienteId.Some?
          ensures PacienteExists(pacientes, rows[i].pacienteId.value)
        {
          if citas[i].id != citaId {
            assert rows[i] == citas[i];
          }
        }
      }
      citas := rows;
    }
  }
}
